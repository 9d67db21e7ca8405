/** Runs of calls on the link manager, and what every call does to the links it is not about. */
module MldRuns {
  import opened Collections
  import opened MldModel
  import opened MldWellFormed

  datatype Call =
    | RegisterCall(ssid: nat, unit: int, env: Env)
    | UnregisterCall(ssid: nat)
    | SetLinkIdCall(ssid: nat, id: int, env: Env)
    | SetPrimaryCall(ssid: nat, env: Env)
    | SaveConfiguredCall(ssid: nat, flag: bool, env: Env)
    | SetConfiguredCall(ssid: nat, flag: bool, env: Env)

  /** The effect of one call; link routines given the null link of an SSID do nothing. */
  function Step(st: State, c: Call): State {
    match c
    case RegisterCall(s, unit, env) => Register(st, s, unit, env)
    case UnregisterCall(s) => Unregister(st, s)
    case SetLinkIdCall(s, id, env) => if s in st.links then SetLinkId(st, s, id, env) else st
    case SetPrimaryCall(s, env) => if s in st.links then SetPrimary(st, s, env) else st
    case SaveConfiguredCall(s, flag, env) => if s in st.links then SaveConfigured(st, s, flag, env) else st
    case SetConfiguredCall(s, flag, env) => if s in st.links then SetConfigured(st, s, flag, env) else st
  }

  function Run(calls: seq<Call>): State {
    if calls == [] then INIT else Step(Run(calls[..|calls| - 1]), calls[|calls| - 1])
  }

  /** Between calls no MLD is empty and no link is outside an MLD. */
  ghost predicate Complete(st: State) {
    && WF(st)
    && (forall a :: a in st.mlds ==> st.mlds[a].links != [])
    && (forall s :: s in st.links ==> st.links[s].mld.Some?)
  }

  // ---------- what a call about one SSID leaves alone ----------

  lemma RemoveTwice(xs: seq<nat>, s: nat)
    requires NoDup(xs)
    ensures Remove(Remove(xs, s), s) == Remove(xs, s)
  {
    RemoveNoDup(xs, s);
  }

  lemma RemoveInserted(xs: seq<nat>, k: nat, s: nat)
    requires NoDup(xs) && s !in xs && k <= |xs|
    ensures Remove(InsertAt(xs, k, s), s) == xs
  {
    var ys := InsertAt(xs, k, s);
    InsertNoDup(xs, k, s);
    assert IndexOf(ys, s) == k;
    assert Remove(ys, s) == ys[..k] + ys[k + 1..];
  }

  lemma RemoveRelinked(st: State, xs: seq<nat>, s: nat, flag: bool)
    requires NoDup(xs)
    ensures Remove(Relink(st, xs, s, flag), s) == Remove(xs, s)
  {
    var rest := Remove(xs, s);
    RemoveNoDup(xs, s);
    RemoveInserted(rest, if flag then AfterLastConf(st, rest) else |rest|, s);
  }

  /** All links but `s` keep their record, and every MLD that has another member keeps
      its type, its unit and the order of those members. */
  ghost predicate OthersKept(st: State, r: State, s: nat) {
    && (forall x :: x != s ==> (x in st.links <==> x in r.links))
    && (forall x :: x != s && x in st.links ==> x in r.links && r.links[x] == st.links[x])
    && (forall a :: a in st.mlds && Remove(st.mlds[a].links, s) != [] ==> MldKept(st, r, s, a))
  }

  ghost predicate MldKept(st: State, r: State, s: nat, a: nat) {
    && a in st.mlds && a in r.mlds
    && r.mlds[a].typ == st.mlds[a].typ && r.mlds[a].unit == st.mlds[a].unit
    && Remove(r.mlds[a].links, s) == Remove(st.mlds[a].links, s)
  }

  lemma OthersKeptTrans(st: State, st1: State, r: State, s: nat)
    requires OthersKept(st, st1, s) && OthersKept(st1, r, s)
    ensures OthersKept(st, r, s)
  {
    forall a | a in st.mlds && Remove(st.mlds[a].links, s) != [] ensures MldKept(st, r, s, a) {
      assert MldKept(st, st1, s, a);
    }
  }

  /** A change that keeps the link records of other SSIDs, and of each MLD the type, unit and other members. */
  lemma OthersKeptFrame(st: State, r: State, s: nat)
    requires forall x :: x != s ==> (x in st.links <==> x in r.links)
    requires forall x :: x != s && x in st.links ==> x in r.links && r.links[x] == st.links[x]
    requires forall a :: a in st.mlds ==> MldKept(st, r, s, a)
    ensures OthersKept(st, r, s)
  {
  }

  lemma TargetMldKept(st: State, unit: int, env: Env, s: nat)
    requires WF(st)
    ensures OthersKept(st, TargetMld(st, unit, env).0, s)
  {
    hide OrderOk, MembersOk;
    OthersKeptFrame(st, TargetMld(st, unit, env).0, s);
  }

  lemma SaveConfiguredKept(st: State, s: nat, wanted: bool, env: Env)
    requires WF(st) && s in st.links
    ensures OthersKept(st, SaveConfigured(st, s, wanted, env), s)
    ensures OthersKept(st, SetConfigured(st, s, wanted, env), s)
  {
    hide OrderOk, MembersOk, AddrOk, Relink, Remove;
    HomeExists(st, s);
    var r := SaveConfigured(st, s, wanted, env);
    if r != st {
      RemoveRelinked(st, st.Home(s).links, s, !st.Link(s).conf);
    }
    OthersKeptFrame(st, r, s);
    OthersKeptFrame(st, SetConfigured(st, s, wanted, env), s);
  }

  lemma ResetLinkIdKept(st: State, s: nat)
    requires WF(st) && s in st.links
    ensures OthersKept(st, ResetLinkId(st, s), s)
  {
    hide OrderOk, MembersOk, AddrOk, Remove;
    HomeExists(st, s);
    OthersKeptFrame(st, ResetLinkId(st, s), s);
  }

  lemma SetLinkIdKept(st: State, s: nat, wanted: int, env: Env)
    requires WF(st) && s in st.links
    ensures OthersKept(st, SetLinkId(st, s, wanted, env), s)
  {
    hide OrderOk, MembersOk, AddrOk, ResetLinkId, SaveConfigured, Remove, OthersKept;
    ResetLinkIdKept(st, s);
    SaveConfiguredKept(st, s, true, env);
    OthersKeptFrame(st, st, s);
    var st1 := if wanted >= 0 then SaveConfigured(st, s, true, env) else st;
    var r := st1.WithLink(s, st1.Link(s).(id := ToInt16(wanted)));
    OthersKeptFrame(st1, r, s);
    OthersKeptTrans(st, st1, r, s);
  }

  lemma SetPrimaryKept(st: State, s: nat, env: Env)
    requires WF(st) && s in st.links
    ensures OthersKept(st, SetPrimary(st, s, env), s)
  {
    hide OrderOk, MembersOk, AddrOk, Remove;
    HomeExists(st, s);
    OthersKeptFrame(st, SetPrimary(st, s, env), s);
  }

  lemma DetachKept(st: State, s: nat)
    requires WF(st) && s in st.links
    ensures OthersKept(st, Detach(st, s), s)
  {
    hide OrderOk, MembersOk, AddrOk, Remove;
    HomeExists(st, s);
    RemoveTwice(st.Home(s).links, s);
    OthersKeptFrame(st, Detach(st, s), s);
  }

  lemma DestroyMldKept(st: State, a: nat, s: nat)
    requires a in st.mlds && st.Mld(a).links == []
    ensures OthersKept(st, DestroyMld(st, a, s), s)
  {
  }

  lemma TakeLinkKept(st: State, s: nat)
    requires WF(st) && s in st.links
    ensures OthersKept(st, TakeLink(st, s), s)
  {
    hide OrderOk, MembersOk, AddrOk, ResetLinkId, Remove, OthersKept;
    var st1 := ResetLinkId(st, s);
    ResetLinkIdOk(st, s);
    ResetLinkIdKept(st, s);
    DetachKept(st1, s);
    OthersKeptTrans(st, st1, Detach(st1, s), s);
    HomeExists(st1, s);
    if st.Link(s).mld.Some? && Detach(st1, s).Mld(st.Link(s).mld.value).links == [] {
      DestroyMldKept(Detach(st1, s), st.Link(s).mld.value, s);
      OthersKeptTrans(st, Detach(st1, s), TakeLink(st, s), s);
    }
  }

  lemma DeinitLinkKept(st: State, s: nat)
    requires WF(st) && s in st.links
    ensures OthersKept(st, DeinitLink(st, s), s)
  {
    hide OrderOk, MembersOk, AddrOk, TakeLink, Remove;
    TakeLinkKept(st, s);
  }

  lemma AttachKept(st: State, s: nat, a: nat, unit: int)
    requires WF(st) && s in st.links && st.Link(s).mld.None? && a in st.mlds
    ensures OthersKept(st, Attach(st, s, a, unit), s)
  {
    var xs := st.Mld(a).links;
    assert NoDup(xs) && s !in xs;
    hide OrderOk, MembersOk, AddrOk, Remove;
    assert xs + [s] == InsertAt(xs, |xs|, s);
    RemoveInserted(xs, |xs|, s);
    assert Remove(xs, s) == xs;
    OthersKeptFrame(st, Attach(st, s, a, unit), s);
  }

  lemma RegisterKept(st: State, s: nat, unit: int, env: Env)
    requires WF(st)
    ensures OthersKept(st, Register(st, s, unit, env), s)
  {
    hide OrderOk, MembersOk, AddrOk, TargetMld, DeinitLink, TakeLink, Attach, Remove, OthersKept;
    var (st1, tgt) := TargetMld(st, unit, env);
    TargetMldOk(st, unit, env);
    TargetMldKept(st, unit, env, s);
    if s !in st1.links {
      if tgt.Some? {
        NewAttachKept(st1, s, tgt.value, unit);
        OthersKeptTrans(st, st1, Register(st, s, unit, env), s);
      }
    } else if tgt.None? {
      DeinitLinkKept(st1, s);
      OthersKeptTrans(st, st1, DeinitLink(st1, s), s);
    } else if st1.Link(s).mld.Some? && st1.Link(s).mld != tgt {
      TakeLinkOk(st1, s);
      TakeLinkKept(st1, s);
      TakeLinkKeeps(st1, s, tgt.value);
      OthersKeptTrans(st, st1, TakeLink(st1, s), s);
      AttachKept(TakeLink(st1, s), s, tgt.value, unit);
      OthersKeptTrans(st, TakeLink(st1, s), Register(st, s, unit, env), s);
    } else if st1.Link(s).mld != tgt {
      DeinitLinkOk(st1, s);
      DeinitLinkKept(st1, s);
      TakeLinkKeeps(st1, s, tgt.value);
      OthersKeptTrans(st, st1, DeinitLink(st1, s), s);
      NewAttachKept(DeinitLink(st1, s), s, tgt.value, unit);
      OthersKeptTrans(st, DeinitLink(st1, s), Register(st, s, unit, env), s);
    }
  }

  lemma NewAttachKept(st: State, s: nat, a: nat, unit: int)
    requires WF(st) && s !in st.links && a in st.mlds
    ensures OthersKept(st, Attach(NewLink(st, s), s, a, unit), s)
  {
    hide OrderOk, MembersOk, AddrOk, Attach, Remove;
    NewLinkOk(st, s);
    OthersKeptFrame(st, NewLink(st, s), s);
    AttachKept(NewLink(st, s), s, a, unit);
    OthersKeptTrans(st, NewLink(st, s), Attach(NewLink(st, s), s, a, unit), s);
  }

  /** A call about one SSID changes no other link, and no other link's place among the rest. */
  lemma StepKeepsOthers(st: State, c: Call)
    requires WF(st)
    ensures OthersKept(st, Step(st, c), c.ssid)
  {
    hide OrderOk, MembersOk, AddrOk, Register, DeinitLink, SetLinkId, SetPrimary, SaveConfigured, SetConfigured, Remove;
    OthersKeptFrame(st, st, c.ssid);
    match c
    case RegisterCall(s, unit, env) => RegisterKept(st, s, unit, env);
    case UnregisterCall(s) =>
      if s in st.links { DeinitLinkKept(st, s); }
    case SetLinkIdCall(s, id, env) => if s in st.links { SetLinkIdKept(st, s, id, env); }
    case SetPrimaryCall(s, env) => if s in st.links { SetPrimaryKept(st, s, env); }
    case SaveConfiguredCall(s, flag, env) => if s in st.links { SaveConfiguredKept(st, s, flag, env); }
    case SetConfiguredCall(s, flag, env) => if s in st.links { SaveConfiguredKept(st, s, flag, env); }
  }

  // ---------- complete stores stay complete ----------

  /** Only the MLD in `spare` may be empty, and only the SSID in `loose` may have a detached link. */
  ghost predicate Almost(st: State, spare: Option<nat>, loose: Option<nat>) {
    && (forall a :: a in st.mlds && st.mlds[a].links == [] ==> spare == Some(a))
    && (forall s :: s in st.links && st.links[s].mld.None? ==> loose == Some(s))
  }

  lemma TargetMldAlmost(st: State, unit: int, env: Env)
    requires WF(st) && Almost(st, None, None)
    ensures Almost(TargetMld(st, unit, env).0, TargetMld(st, unit, env).1, None)
  {
    hide OrderOk, MembersOk, AddrOk;
  }

  lemma TakeLinkAlmost(st: State, s: nat, spare: Option<nat>)
    requires WF(st) && s in st.links && Almost(st, spare, None)
    ensures Almost(TakeLink(st, s), spare, Some(s))
    ensures Almost(DeinitLink(st, s), spare, None)
  {
    hide OrderOk, MembersOk, AddrOk, Remove;
    HomeExists(st, s);
    ResetLinkIdOk(st, s);
  }

  lemma AttachAlmost(st: State, s: nat, a: nat, unit: int)
    requires Almost(st, Some(a), Some(s))
    ensures Almost(Attach(st, s, a, unit), None, None)
  {
  }

  lemma RegisterAlmost(st: State, s: nat, unit: int, env: Env)
    requires WF(st) && Almost(st, None, None)
    ensures Almost(Register(st, s, unit, env), None, None)
  {
    hide OrderOk, MembersOk, AddrOk, TargetMld, DeinitLink, TakeLink, Attach;
    var (st1, tgt) := TargetMld(st, unit, env);
    TargetMldOk(st, unit, env);
    TargetMldAlmost(st, unit, env);
    if s !in st1.links {
      if tgt.Some? { AttachAlmost(NewLink(st1, s), s, tgt.value, unit); }
    } else {
      TakeLinkAlmost(st1, s, tgt);
      if tgt.Some? && st1.Link(s).mld != tgt {
        AttachAlmost(TakeLink(st1, s), s, tgt.value, unit);
      } else if tgt.Some? {
        HomeExists(st1, s);
      }
    }
  }

  lemma StepComplete(st: State, c: Call)
    requires Complete(st)
    ensures Complete(Step(st, c))
  {
    hide OrderOk, MembersOk, AddrOk, Register, DeinitLink, SetLinkId, SetPrimary, SaveConfigured, OthersKept;
    assert Almost(st, None, None);
    match c
    case RegisterCall(s, unit, env) =>
      RegisterOk(st, s, unit, env);
      RegisterAlmost(st, s, unit, env);
    case UnregisterCall(s) =>
      if s in st.links {
        DeinitLinkOk(st, s);
        TakeLinkAlmost(st, s, None);
      }
    case SetLinkIdCall(s, id, env) =>
      if s in st.links {
        SetLinkIdOk(st, s, id, env);
        SetLinkIdComplete(st, s, id, env);
      }
    case SetPrimaryCall(s, env) =>
      if s in st.links {
        SetPrimaryOk(st, s, env);
        SetPrimaryComplete(st, s, env);
      }
    case SaveConfiguredCall(s, flag, env) =>
      if s in st.links {
        SaveConfiguredOk(st, s, flag, env);
        SaveConfiguredComplete(st, s, flag, env);
      }
    case SetConfiguredCall(s, flag, env) =>
      if s in st.links {
        SetConfiguredOk(st, s, flag, env);
        SaveConfiguredComplete(st, s, flag, env);
      }
  }

  lemma SetConfiguredOk(st: State, s: nat, flag: bool, env: Env)
    requires WF(st) && s in st.links
    ensures WF(SetConfigured(st, s, flag, env))
  {
    hide OrderOk, MembersOk, AddrOk, SaveConfigured;
    SaveConfiguredOk(st, s, flag, env);
    var st1 := SaveConfigured(st, s, flag, env);
    OrderFrame(st1, SetConfigured(st, s, flag, env));
    MembersFrame(st1, SetConfigured(st, s, flag, env));
    AddrFrame(st1, SetConfigured(st, s, flag, env));
  }

  /** The same links in the same MLDs, and no list emptied. */
  ghost predicate SameHomes(st: State, r: State) {
    && r.mlds.Keys == st.mlds.Keys && r.order == st.order && r.links.Keys == st.links.Keys
    && (forall a :: a in st.mlds ==> r.mlds[a].typ == st.mlds[a].typ && r.mlds[a].unit == st.mlds[a].unit)
    && (forall a :: a in st.mlds ==> |r.mlds[a].links| == |st.mlds[a].links|)
    && (forall s :: s in st.links ==> r.links[s].mld == st.links[s].mld)
  }

  lemma SaveConfiguredComplete(st: State, s: nat, flag: bool, env: Env)
    requires WF(st) && s in st.links
    ensures SameHomes(st, SaveConfigured(st, s, flag, env))
    ensures SaveConfigured(st, s, flag, env).events == st.events
  {
    hide OrderOk, MembersOk, AddrOk, Relink;
    HomeExists(st, s);
    if st.Link(s).mld.Some? {
      RelinkLength(st, st.Home(s).links, s, true);
      RelinkLength(st, st.Home(s).links, s, false);
    }
  }

  lemma RelinkLength(st: State, xs: seq<nat>, s: nat, flag: bool)
    requires s in xs
    ensures |Relink(st, xs, s, flag)| == |xs|
  {
  }

  /** The update event names the type and unit of the MLD that still holds the link. */
  lemma SetConfiguredAnnounces(st: State, s: nat, flag: bool, env: Env)
    requires WF(st) && s in st.links && st.Link(s).mld.Some?
    ensures WF(SetConfigured(st, s, flag, env))
    ensures var r := SaveConfigured(st, s, flag, env);
            r.Link(s).mld == st.Link(s).mld
            && SetConfigured(st, s, flag, env) == r.WithEvent(Event(Update, r.Home(s).typ, r.Home(s).unit, s))
  {
    hide OrderOk, MembersOk, AddrOk, SaveConfigured;
    SetConfiguredOk(st, s, flag, env);
    SaveConfiguredComplete(st, s, flag, env);
    HomeExists(st, s);
  }

  lemma ResetLinkIdComplete(st: State, s: nat)
    requires WF(st) && s in st.links
    ensures SameHomes(st, ResetLinkId(st, s))
    ensures ResetLinkId(st, s).events == st.events
  {
    hide OrderOk, MembersOk, AddrOk;
    HomeExists(st, s);
  }

  lemma SetLinkIdComplete(st: State, s: nat, id: int, env: Env)
    requires WF(st) && s in st.links
    ensures SameHomes(st, SetLinkId(st, s, id, env))
    ensures SetLinkId(st, s, id, env).events == st.events
  {
    hide OrderOk, MembersOk, AddrOk, SaveConfigured, ResetLinkId;
    SaveConfiguredComplete(st, s, true, env);
    ResetLinkIdComplete(st, s);
  }

  lemma SetPrimaryComplete(st: State, s: nat, env: Env)
    requires WF(st) && s in st.links
    ensures SameHomes(st, SetPrimary(st, s, env))
    ensures SetPrimary(st, s, env).events == st.events
  {
    hide OrderOk, MembersOk, AddrOk;
    HomeExists(st, s);
  }

  /** Every reachable store is well formed, without empty MLDs and without loose links. */
  lemma {:induction false} RunComplete(calls: seq<Call>)
    ensures Complete(Run(calls))
  {
    if calls == [] {
      InitOk();
    } else {
      RunComplete(calls[..|calls| - 1]);
      hide Complete, Step;
      StepComplete(Run(calls[..|calls| - 1]), calls[|calls| - 1]);
    }
  }

  /** Frame of a whole call, at every reachable store. */
  lemma CallMovesOnlyItsLink(calls: seq<Call>, c: Call)
    ensures OthersKept(Run(calls), Run(calls + [c]), c.ssid)
  {
    RunComplete(calls);
    assert (calls + [c])[..|calls|] == calls;
    hide Step, OthersKept, OrderOk, MembersOk, AddrOk;
    StepKeepsOthers(Run(calls), c);
  }
}
