/** The manager refines a map from SSIDs to (type, unit). */
module MldRegistry {
  import opened Collections
  import opened MldModel
  import opened MldWellFormed
  import opened MldRuns

  datatype Key = Key(typ: SsidType, unit: int)

  /** What the latest registration or unregistration of the SSID asked for. */
  function Target(calls: seq<Call>, s: nat): Option<Key> {
    if calls == [] then None
    else
      match calls[|calls| - 1]
      case RegisterCall(s', unit, env) =>
        if s' != s then Target(calls[..|calls| - 1], s)
        else if unit >= 0 && env.be then Some(Key(env.typ, unit))
        else None
      case UnregisterCall(s') => if s' != s then Target(calls[..|calls| - 1], s) else None
      case _ => Target(calls[..|calls| - 1], s)
  }

  /** Type and unit of the MLD that holds the SSID's link. */
  function KeyOf(st: State, s: nat): Option<Key> {
    if s in st.links then Some(Key(st.Home(s).typ, st.Home(s).unit)) else None
  }

  /** What is stored of a type and unit: the low byte of the unit. */
  function Stored(k: Option<Key>): Option<Key> {
    match k
    case Some(key) => Some(Key(key.typ, if key.unit >= 0 then ToUint8(key.unit) else key.unit))
    case None => None
  }

  /** The unit of a registration that asks for an MLD fits the byte that stores it. */
  predicate UnitFits(c: Call) {
    c.RegisterCall? && c.env.be ==> c.unit < 256
  }

  ghost predicate UnitsFit(calls: seq<Call>) {
    forall i :: 0 <= i < |calls| ==> UnitFits(calls[i])
  }

  ghost predicate AscendingList(st: State, xs: seq<nat>) {
    forall i, j :: 0 <= i < j < |xs| ==> st.Mld(xs[i]).unit < st.Mld(xs[j]).unit
  }

  /** Each list of MLDs is strictly ascending in the units. */
  ghost predicate Ascending(st: State) {
    forall t: SsidType :: AscendingList(st, st.Order(t))
  }

  // ---------- lists stay ascending ----------

  lemma AscendingListFrame(st: State, r: State, xs: seq<nat>)
    requires AscendingList(st, xs)
    requires forall a :: a in xs ==> r.Mld(a).unit == st.Mld(a).unit
    ensures AscendingList(r, xs)
  {
  }

  lemma AscendingFrame(st: State, r: State)
    requires Ascending(st) && r.order == st.order
    requires forall t, a :: a in st.Order(t) ==> r.Mld(a).unit == st.Mld(a).unit
    ensures Ascending(r)
  {
    forall t: SsidType ensures AscendingList(r, r.Order(t)) {
      assert AscendingList(st, st.Order(t));
      assert forall a :: a in st.Order(t) ==> r.Mld(a).unit == st.Mld(a).unit;
      AscendingListFrame(st, r, st.Order(t));
    }
  }

  lemma {:induction false} InsertAscending(st: State, xs: seq<nat>, a: nat)
    requires AscendingList(st, xs) && forall x :: x in xs ==> st.Mld(x).unit != st.Mld(a).unit
    ensures AscendingList(st, InsertAt(xs, InsertPos(st, xs, st.Mld(a).unit), a))
  {
    var u := st.Mld(a).unit;
    var k := InsertPos(st, xs, u);
    var ys := InsertAt(xs, k, a);
    assert k < |xs| ==> u < st.Mld(xs[k]).unit;
    hide InsertPos, InsertAt;
    forall i, j | 0 <= i < j < |ys| ensures st.Mld(ys[i]).unit < st.Mld(ys[j]).unit {
      if i < k { assert ys[i] == xs[i] && xs[i] in xs; }
      if k < j { assert ys[j] == xs[j - 1]; }
      if j < k { assert ys[j] == xs[j]; }
      if k < i { assert ys[i] == xs[i - 1]; }
    }
  }

  /** The scan for the insertion point only looks at the units of the listed MLDs. */
  lemma {:induction false} InsertPosFrame(st: State, r: State, xs: seq<nat>, unit: int)
    requires forall a :: a in xs ==> r.Mld(a).unit == st.Mld(a).unit
    ensures InsertPos(r, xs, unit) == InsertPos(st, xs, unit)
  {
    if xs != [] {
      assert xs[0] in xs;
      forall a | a in xs[1..] ensures a in xs {}
      InsertPosFrame(st, r, xs[1..], unit);
    }
  }

  lemma CreateMldAscending(st: State, typ: SsidType, unit: int)
    requires WF(st) && Ascending(st)
    requires 0 <= unit < 256 && FindIn(st, st.Order(typ), unit).None?
    ensures Ascending(CreateMld(st, typ, unit))
  {
    var r := CreateMld(st, typ, unit);
    forall t: SsidType ensures AscendingList(r, r.Order(t)) {
      hide OrderOk, MembersOk, AscendingList;
      ListedExist(st, t);
      var xs := st.Order(t);
      assert AscendingList(st, xs);
      assert forall a :: a in xs ==> r.Mld(a) == st.Mld(a);
      AscendingListFrame(st, r, xs);
      if t == typ {
        InsertPosFrame(st, r, xs, unit);
        InsertAscending(r, xs, st.next);
      }
    }
  }

  lemma TargetMldAscending(st: State, unit: int, env: Env)
    requires WF(st) && Ascending(st) && (env.be ==> unit < 256)
    ensures Ascending(TargetMld(st, unit, env).0)
  {
    hide OrderOk, MembersOk, AddrOk, Ascending, CreateMld;
    if unit >= 0 && env.be && FindIn(st, st.Order(env.typ), unit).None? {
      CreateMldAscending(st, env.typ, unit);
    }
  }

  lemma RemoveAscending(st: State, xs: seq<nat>, a: nat)
    requires AscendingList(st, xs)
    ensures AscendingList(st, Remove(xs, a))
  {
    hide Remove, IndexOf;
    if a in xs { RemovedPlaces(xs, a); }
  }

  lemma DestroyMldAscending(st: State, a: nat, s: nat)
    requires WF(st) && Ascending(st) && a in st.mlds
    ensures Ascending(DestroyMld(st, a, s))
  {
    forall t: SsidType ensures AscendingList(DestroyMld(st, a, s), DestroyMld(st, a, s).Order(t)) {
      DestroyMldList(st, a, s, t);
    }
  }

  lemma DestroyMldList(st: State, a: nat, s: nat, t: SsidType)
    requires WF(st) && Ascending(st) && a in st.mlds
    ensures AscendingList(DestroyMld(st, a, s), DestroyMld(st, a, s).Order(t))
  {
    hide MembersOk, AddrOk, AscendingList;
    var r, xs := DestroyMld(st, a, s), st.Order(t);
    assert AscendingList(st, xs);
    RemoveAscending(st, xs, a);
    ListedExist(st, t);
    assert NoDup(xs);
    RemoveNoDup(xs, a);
    hide OrderOk, NoDup, Remove;
    assert r.Order(t) == if t == st.Mld(a).typ then Remove(xs, a) else xs;
    assert t != st.Mld(a).typ ==> a !in xs;
    AscendingListFrame(st, r, r.Order(t));
  }

  lemma SameHomesAscending(st: State, r: State)
    requires WF(st) && Ascending(st) && SameHomes(st, r)
    ensures Ascending(r)
  {
    forall t, a | a in st.Order(t) ensures r.Mld(a).unit == st.Mld(a).unit {
      hide OrderOk;
      ListedExist(st, t);
    }
    hide OrderOk, MembersOk, AddrOk;
    AscendingFrame(st, r);
  }

  lemma TakeLinkAscending(st: State, s: nat)
    requires WF(st) && Ascending(st) && s in st.links
    ensures Ascending(TakeLink(st, s)) && Ascending(DeinitLink(st, s))
  {
    hide OrderOk, MembersOk, AddrOk, Ascending, ResetLinkId, DestroyMld;
    var st1 := ResetLinkId(st, s);
    ResetLinkIdOk(st, s);
    ResetLinkIdComplete(st, s);
    SameHomesAscending(st, st1);
    var st2 := Detach(st1, s);
    DetachOk(st1, s);
    HomeExists(st1, s);
    AscendingFrame(st1, st2);
    if st.Link(s).mld.Some? && st2.Mld(st.Link(s).mld.value).links == [] {
      DestroyMldAscending(st2, st.Link(s).mld.value, s);
    }
    AscendingFrame(TakeLink(st, s), DeinitLink(st, s));
  }

  lemma AttachAscending(st: State, s: nat, a: nat, unit: int)
    requires Ascending(st) && a in st.mlds
    ensures Ascending(Attach(st, s, a, unit))
  {
    hide Ascending;
    AscendingFrame(st, Attach(st, s, a, unit));
  }

  lemma RegisterAscending(st: State, s: nat, unit: int, env: Env)
    requires WF(st) && Ascending(st) && (env.be ==> unit < 256)
    ensures Ascending(Register(st, s, unit, env))
  {
    hide OrderOk, MembersOk, AddrOk, Ascending, TargetMld, DeinitLink, TakeLink, Attach;
    var (st1, tgt) := TargetMld(st, unit, env);
    TargetMldOk(st, unit, env);
    TargetMldAscending(st, unit, env);
    if s in st1.links {
      TakeLinkAscending(st1, s);
      if tgt.Some? && st1.Link(s).mld != tgt {
        TakeLinkKeeps(st1, s, tgt.value);
        AttachAscending(TakeLink(st1, s), s, tgt.value, unit);
        AscendingFrame(DeinitLink(st1, s), NewLink(DeinitLink(st1, s), s));
        AttachAscending(NewLink(DeinitLink(st1, s), s), s, tgt.value, unit);
      }
    } else if tgt.Some? {
      AscendingFrame(st1, NewLink(st1, s));
      AttachAscending(NewLink(st1, s), s, tgt.value, unit);
    }
  }

  lemma StepAscending(st: State, c: Call)
    requires Complete(st) && Ascending(st) && UnitFits(c)
    ensures Ascending(Step(st, c))
  {
    hide OrderOk, MembersOk, AddrOk, Ascending, Register, DeinitLink, SetLinkId, SetPrimary, SaveConfigured;
    match c
    case RegisterCall(s, unit, env) => RegisterAscending(st, s, unit, env);
    case UnregisterCall(s) => if s in st.links { TakeLinkAscending(st, s); }
    case SetLinkIdCall(s, id, env) =>
      if s in st.links { SetLinkIdComplete(st, s, id, env); SameHomesAscending(st, Step(st, c)); }
    case SetPrimaryCall(s, env) =>
      if s in st.links { SetPrimaryComplete(st, s, env); SameHomesAscending(st, Step(st, c)); }
    case SaveConfiguredCall(s, flag, env) =>
      if s in st.links { SaveConfiguredComplete(st, s, flag, env); SameHomesAscending(st, Step(st, c)); }
    case SetConfiguredCall(s, flag, env) =>
      if s in st.links { SaveConfiguredComplete(st, s, flag, env); SameHomesAscending(st, Step(st, c)); }
  }

  lemma {:induction false} RunAscending(calls: seq<Call>)
    requires UnitsFit(calls)
    ensures Ascending(Run(calls))
  {
    if calls != [] {
      var n := |calls| - 1;
      assert UnitFits(calls[n]);
      RunAscending(calls[..n]);
      RunComplete(calls[..n]);
      hide Ascending, Complete, Step;
      StepAscending(Run(calls[..n]), calls[n]);
    }
  }

  // ---------- what a registration does to its own link ----------

  /** Every stored unit is a byte. */
  ghost predicate Bytes(st: State) {
    forall a :: a in st.mlds ==> st.mlds[a].unit < 256
  }

  lemma ResetLinkIdBytes(st: State, s: nat)
    requires Bytes(st)
    ensures Bytes(ResetLinkId(st, s))
  {
  }

  lemma DetachBytes(st: State, s: nat)
    requires Bytes(st)
    ensures Bytes(Detach(st, s))
  {
    hide Remove;
  }

  lemma TakeLinkBytes(st: State, s: nat)
    requires Bytes(st)
    ensures Bytes(TakeLink(st, s)) && Bytes(DeinitLink(st, s))
  {
    hide ResetLinkId, Detach, Remove;
    ResetLinkIdBytes(st, s);
    DetachBytes(ResetLinkId(st, s), s);
  }

  lemma AttachBytes(st: State, s: nat, a: nat, unit: int)
    requires Bytes(st)
    ensures Bytes(Attach(st, s, a, unit)) && Bytes(Attach(NewLink(st, s), s, a, unit))
  {
  }

  lemma TargetMldBytes(st: State, unit: int, env: Env)
    requires Bytes(st)
    ensures Bytes(TargetMld(st, unit, env).0)
  {
    hide InsertAt, InsertPos, FindIn;
  }

  lemma RegisterBytes(st: State, s: nat, unit: int, env: Env)
    requires Bytes(st)
    ensures Bytes(Register(st, s, unit, env))
  {
    hide TargetMld, TakeLink, DeinitLink, Attach, NewLink, Bytes;
    var (st1, tgt) := TargetMld(st, unit, env);
    TargetMldBytes(st, unit, env);
    TakeLinkBytes(st1, s);
    if tgt.Some? {
      AttachBytes(st1, s, tgt.value, unit);
      AttachBytes(TakeLink(st1, s), s, tgt.value, unit);
      AttachBytes(DeinitLink(st1, s), s, tgt.value, unit);
    }
  }

  lemma StepBytes(st: State, c: Call)
    requires Complete(st) && Bytes(st)
    ensures Bytes(Step(st, c))
  {
    hide OrderOk, MembersOk, AddrOk, Register, DeinitLink, SetLinkId, SetPrimary, SaveConfigured;
    match c
    case RegisterCall(s, unit, env) => RegisterBytes(st, s, unit, env);
    case UnregisterCall(s) => if s in st.links { TakeLinkBytes(st, s); }
    case SetLinkIdCall(s, id, env) => if s in st.links { SetLinkIdComplete(st, s, id, env); }
    case SetPrimaryCall(s, env) => if s in st.links { SetPrimaryComplete(st, s, env); }
    case SaveConfiguredCall(s, flag, env) => if s in st.links { SaveConfiguredComplete(st, s, flag, env); }
    case SetConfiguredCall(s, flag, env) => if s in st.links { SaveConfiguredComplete(st, s, flag, env); }
  }

  lemma {:induction false} RunBytes(calls: seq<Call>)
    ensures Bytes(Run(calls))
  {
    if calls != [] {
      var n := |calls| - 1;
      RunBytes(calls[..n]);
      RunComplete(calls[..n]);
      hide Bytes, Complete, Step;
      StepBytes(Run(calls[..n]), calls[n]);
    }
  }

  /** A unit that does not fit is never found among the stored ones. */
  lemma TargetMldKey(st: State, unit: int, env: Env)
    requires WF(st) && Bytes(st)
    ensures
      var (st1, tgt) := TargetMld(st, unit, env);
      && (tgt.Some? <==> unit >= 0 && env.be)
      && (tgt.Some? ==> st1.Mld(tgt.value).typ == env.typ && st1.Mld(tgt.value).unit == ToUint8(unit))
  {
    hide OrderOk, MembersOk, AddrOk, InsertAt, InsertPos;
    ListedExist(st, env.typ);
  }

  lemma RegisterKey(st: State, s: nat, unit: int, env: Env)
    requires WF(st) && Bytes(st)
    ensures KeyOf(Register(st, s, unit, env), s) ==
            if unit >= 0 && env.be then Some(Key(env.typ, ToUint8(unit))) else None
  {
    hide OrderOk, MembersOk, AddrOk, TakeLink, DeinitLink, TargetMld, ToUint8;
    var (st1, tgt) := TargetMld(st, unit, env);
    TargetMldOk(st, unit, env);
    TargetMldKey(st, unit, env);
    if s in st1.links {
      DeinitLinkOk(st1, s);
      TakeLinkOk(st1, s);
      if tgt.Some? && st1.Link(s).mld != tgt { TakeLinkKeeps(st1, s, tgt.value); }
    }
  }

  lemma OthersKeyKept(st: State, r: State, s: nat, x: nat)
    requires WF(st) && OthersKept(st, r, s) && x != s
    requires x in st.links ==> st.Link(x).mld.Some?
    ensures KeyOf(r, x) == KeyOf(st, x)
  {
    hide OrderOk, AddrOk, MembersOk;
    if x in st.links {
      HomeExists(st, x);
      assert x in Remove(st.Home(x).links, s);
      assert MldKept(st, r, s, st.Link(x).mld.value);
    }
  }

  lemma StepKey(st: State, c: Call)
    requires Complete(st) && Bytes(st)
    ensures KeyOf(Step(st, c), c.ssid) ==
            match c
            case RegisterCall(_, unit, env) => if unit >= 0 && env.be then Some(Key(env.typ, ToUint8(unit))) else None
            case UnregisterCall(_) => None
            case _ => KeyOf(st, c.ssid)
  {
    hide OrderOk, MembersOk, AddrOk, Register, DeinitLink, SetLinkId, SetPrimary, SaveConfigured;
    match c
    case RegisterCall(s, unit, env) => RegisterKey(st, s, unit, env);
    case UnregisterCall(s) => if s in st.links { DeinitLinkOk(st, s); }
    case SetLinkIdCall(s, id, env) =>
      if s in st.links { SetLinkIdComplete(st, s, id, env); HomeExists(st, s); }
    case SetPrimaryCall(s, env) =>
      if s in st.links { SetPrimaryComplete(st, s, env); HomeExists(st, s); }
    case SaveConfiguredCall(s, flag, env) =>
      if s in st.links { SaveConfiguredComplete(st, s, flag, env); HomeExists(st, s); }
    case SetConfiguredCall(s, flag, env) =>
      if s in st.links { SaveConfiguredComplete(st, s, flag, env); HomeExists(st, s); }
  }

  // ---------- main results ----------

  /** After any run, an SSID has a link exactly when its latest registration asked for one,
      and that link is in an MLD of the type asked for, filed under the unit asked for as a
      byte stores it. */
  lemma {:induction false} LinkFollowsLatestRegistration(calls: seq<Call>, s: nat)
    ensures KeyOf(Run(calls), s) == Stored(Target(calls, s))
  {
    if calls != [] {
      var n := |calls| - 1;
      var st, c := Run(calls[..n]), calls[n];
      LinkFollowsLatestRegistration(calls[..n], s);
      RunComplete(calls[..n]);
      RunBytes(calls[..n]);
      if s == c.ssid {
        hide Step, KeyOf, ToUint8;
        StepKey(st, c);
      } else {
        hide Step, KeyOf, OthersKept;
        StepKeepsOthers(st, c);
        OthersKeyKept(st, Step(st, c), c.ssid, s);
      }
    }
  }

  /** Nothing is left: no link, no MLD, and every list is empty. */
  ghost predicate IsEmpty(st: State) {
    st.links.Keys == {} && st.mlds.Keys == {} && forall t: SsidType :: st.Order(t) == []
  }

  lemma MldHasLink(st: State, a: nat)
    requires Complete(st) && a in st.mlds
    ensures st.links.Keys != {}
  {
    var s := st.mlds[a].links[0];
    ListedLink(st, a);
    assert s in st.mlds[a].links && s in st.links.Keys;
  }

  lemma ListHasLink(st: State, t: SsidType)
    requires Complete(st) && st.Order(t) != []
    ensures st.links.Keys != {}
  {
    ListedExist(st, t);
    MldHasLink(st, st.Order(t)[0]);
  }

  lemma NoLinksIsEmpty(st: State)
    requires Complete(st) && st.links.Keys == {}
    ensures IsEmpty(st)
  {
    hide Complete;
    if a: nat :| a in st.mlds { MldHasLink(st, a); }
    if t: SsidType :| st.Order(t) != [] { ListHasLink(st, t); }
  }

  /** After any run the manager is empty if and only if no SSID is registered. */
  lemma EmptyExactlyWhenNoneRegistered(calls: seq<Call>)
    ensures IsEmpty(Run(calls)) <==> forall s :: Target(calls, s).None?
  {
    hide Run, Target, Complete, IsEmpty;
    RunComplete(calls);
    forall s ensures s in Run(calls).links <==> Target(calls, s).Some? {
      LinkFollowsLatestRegistration(calls, s);
    }
    LinksOfEmpty(Run(calls));
    if Run(calls).links.Keys == {} {
      NoLinksIsEmpty(Run(calls));
    } else {
      var s :| s in Run(calls).links;
      assert Target(calls, s).Some?;
    }
  }

  lemma LinksOfEmpty(st: State)
    ensures IsEmpty(st) ==> st.links.Keys == {}
  {
  }

  function Unregisters(ss: seq<nat>): seq<Call> {
    seq(|ss|, i requires 0 <= i < |ss| => UnregisterCall(ss[i]))
  }

  lemma {:induction false} UnregistersForget(calls: seq<Call>, ss: seq<nat>, s: nat)
    ensures Target(calls + Unregisters(ss), s) == if s in ss then None else Target(calls, s)
  {
    if ss == [] {
      assert calls + Unregisters(ss) == calls;
    } else {
      var n := |ss| - 1;
      assert calls + Unregisters(ss) == (calls + Unregisters(ss[..n])) + [UnregisterCall(ss[n])];
      UnregistersForget(calls, ss[..n], s);
      assert s in ss <==> s in ss[..n] || s == ss[n];
    }
  }

  /** Unregistering every SSID that has a link, in any order, empties the manager, whatever
      run came before; what the teardown of the manager then finds is nothing. */
  lemma UnregisteringAllEmpties(calls: seq<Call>, ss: seq<nat>)
    requires forall s :: s in Run(calls).links ==> s in ss
    ensures IsEmpty(Run(calls + Unregisters(ss)))
  {
    hide Run, Target, IsEmpty, Unregisters;
    forall s ensures Target(calls + Unregisters(ss), s).None? {
      UnregistersForget(calls, ss, s);
      LinkFollowsLatestRegistration(calls, s);
    }
    EmptyExactlyWhenNoneRegistered(calls + Unregisters(ss));
  }

  /** The latest registration is honoured to the letter exactly when its unit fits the byte. */
  lemma HonouredExactlyWhenUnitFits(calls: seq<Call>, s: nat)
    ensures KeyOf(Run(calls), s) == Target(calls, s) <==> (Target(calls, s).Some? ==> Target(calls, s).value.unit < 256)
  {
    hide Run;
    LinkFollowsLatestRegistration(calls, s);
    TargetUnit(calls, s);
  }

  lemma {:induction false} TargetUnit(calls: seq<Call>, s: nat)
    ensures Target(calls, s).Some? ==> Target(calls, s).value.unit >= 0
    ensures UnitsFit(calls) ==> Stored(Target(calls, s)) == Target(calls, s)
  {
    if calls != [] {
      TargetUnit(calls[..|calls| - 1], s);
      assert UnitsFit(calls) ==> UnitFits(calls[|calls| - 1]);
    }
  }

  function KeyAt(st: State, a: nat): Key {
    Key(st.Mld(a).typ, st.Mld(a).unit)
  }

  /** No two MLDs share a type and a unit. */
  ghost predicate DistinctKeys(st: State) {
    forall a, b :: a in st.mlds && b in st.mlds && KeyAt(st, a) == KeyAt(st, b) ==> a == b
  }

  lemma UnitsIdentify(st: State, a: nat, b: nat)
    requires OrderOk(st) && Ascending(st) && a in st.mlds && b in st.mlds
    requires st.mlds[a].typ == st.mlds[b].typ && st.mlds[a].unit == st.mlds[b].unit
    ensures a == b
  {
    hide NoDup;
    var xs := st.Order(st.mlds[a].typ);
    assert a in xs && b in xs && AscendingList(st, xs);
    var i, j := IndexOf(xs, a), IndexOf(xs, b);
  }

  lemma AscendingDistinct(st: State)
    requires OrderOk(st) && Ascending(st)
    ensures DistinctKeys(st)
  {
    forall a, b | a in st.mlds && b in st.mlds && KeyAt(st, a) == KeyAt(st, b) ensures a == b {
      hide OrderOk, Ascending;
      UnitsIdentify(st, a, b);
    }
  }

  /** The MLD holds exactly the SSIDs whose latest registration named its type and, up to truncation, its unit. */
  ghost predicate HoldsItsOwn(calls: seq<Call>, a: nat) {
    forall s: nat :: s in Run(calls).Mld(a).links <==> Stored(Target(calls, s)) == Some(KeyAt(Run(calls), a))
  }

  lemma HolderHasKey(calls: seq<Call>, a: nat, s: nat)
    requires a in Run(calls).mlds && s in Run(calls).mlds[a].links
    ensures s in Run(calls).links && Run(calls).Link(s).mld == Some(a)
    ensures Stored(Target(calls, s)) == Some(KeyAt(Run(calls), a))
  {
    hide Run, OrderOk, AddrOk;
    LinkFollowsLatestRegistration(calls, s);
    RunComplete(calls);
    ListedLink(Run(calls), a);
  }

  lemma KeyHasHolder(calls: seq<Call>, a: nat, s: nat)
    requires DistinctKeys(Run(calls)) && a in Run(calls).mlds && Stored(Target(calls, s)) == Some(KeyAt(Run(calls), a))
    ensures s in Run(calls).mlds[a].links
  {
    hide Run, OrderOk, AddrOk, Target;
    LinkFollowsLatestRegistration(calls, s);
    RunComplete(calls);
    HomeExists(Run(calls), s);
    assert KeyAt(Run(calls), Run(calls).Link(s).mld.value) == KeyAt(Run(calls), a);
  }

  /** After any run, every MLD holds exactly its own SSIDs if and only if no two MLDs share a type and a stored unit. */
  lemma MldsHoldTheirOwnExactly(calls: seq<Call>)
    ensures (forall a :: a in Run(calls).mlds ==> HoldsItsOwn(calls, a)) <==> DistinctKeys(Run(calls))
  {
    var st := Run(calls);
    RunComplete(calls);
    hide Run, Target, WF;
    if DistinctKeys(st) {
      forall a, s: nat | a in st.mlds ensures s in st.Mld(a).links <==> Stored(Target(calls, s)) == Some(KeyAt(st, a)) {
        if s in st.mlds[a].links { HolderHasKey(calls, a, s); }
        if Stored(Target(calls, s)) == Some(KeyAt(st, a)) { KeyHasHolder(calls, a, s); }
      }
    }
    if forall a :: a in st.mlds ==> HoldsItsOwn(calls, a) {
      forall a, b | a in st.mlds && b in st.mlds && KeyAt(st, a) == KeyAt(st, b) ensures a == b {
        var s := st.mlds[a].links[0];
        HolderHasKey(calls, a, s);
        assert HoldsItsOwn(calls, b);
        HolderHasKey(calls, b, s);
      }
    }
  }

  /** When all units fit, every MLD holds exactly the SSIDs whose latest registration named its type and unit. */
  lemma MldHoldsItsRegistrations(calls: seq<Call>, a: nat, s: nat)
    requires UnitsFit(calls) && a in Run(calls).mlds
    ensures s in Run(calls).mlds[a].links <==> Target(calls, s) == Some(KeyAt(Run(calls), a))
  {
    hide Run, Ascending, Target, DistinctKeys;
    RunAscending(calls);
    RunComplete(calls);
    AscendingDistinct(Run(calls));
    TargetUnit(calls, s);
    if s in Run(calls).mlds[a].links {
      HolderHasKey(calls, a, s);
    } else if Target(calls, s) == Some(KeyAt(Run(calls), a)) {
      KeyHasHolder(calls, a, s);
    }
  }

  // ---------- units that do not fit a byte ----------

  /** The store after one registration in an empty manager. */
  lemma FirstRegistration(s: nat, unit: int, env: Env)
    requires unit >= 0 && env.be
    ensures Run([RegisterCall(s, unit, env)]) == State(
      map[0 := MldRec(env.typ, ToUint8(unit), [s], None)],
      INIT.order[env.typ := [0]],
      map[s := LinkRec(1, Some(0), NO_LINK_ID, false)],
      2,
      [Event(Add, env.typ, unit, s)])
  {
    var c := RegisterCall(s, unit, env);
    assert [c][..0] == [];
    assert Run([c]) == Register(INIT, s, unit, env);
    assert INIT.Order(env.typ) == [] by {
      match env.typ case UnknownType => case ApType => case EpType =>
    }
    assert InsertAt([], 0, 0) == [0];
    var st1 := CreateMld(INIT, env.typ, unit);
    assert TargetMld(INIT, unit, env) == (st1, Some(0));
    assert st1.mlds == map[0 := MldRec(env.typ, ToUint8(unit), [], None)];
    var st2 := NewLink(st1, s);
    assert st2.Link(s) == LinkRec(1, None, NO_LINK_ID, false);
    assert Attach(st2, s, 0, unit).Mld(0).links == [s];
  }

  /** The store after a second SSID was registered for the same fitting unit. */
  lemma SecondFits(s: nat, s': nat, unit: int, env: Env)
    requires s != s' && 0 <= unit < 256 && env.be
    ensures Run([RegisterCall(s, unit, env), RegisterCall(s', unit, env)]) == State(
      map[0 := MldRec(env.typ, unit, [s, s'], None)],
      INIT.order[env.typ := [0]],
      map[s := LinkRec(1, Some(0), NO_LINK_ID, false), s' := LinkRec(2, Some(0), NO_LINK_ID, false)],
      3,
      [Event(Add, env.typ, unit, s)])
  {
    var c1, c2 := RegisterCall(s, unit, env), RegisterCall(s', unit, env);
    assert [c1, c2][..1] == [c1];
    FirstRegistration(s, unit, env);
    var st1 := Run([c1]);
    assert Run([c1, c2]) == Register(st1, s', unit, env);
    hide Run;
    assert st1.Order(env.typ) == [0];
    FindInSingle(st1, unit);
    var st2 := NewLink(st1, s');
    assert st2.Mld(0).links == [s] && st2.Link(s') == LinkRec(2, None, NO_LINK_ID, false);
    assert Attach(st2, s', 0, unit).Mld(0).links == [s, s'];
  }

  /** The same for a unit that does not fit. */
  lemma SecondOverflows(s: nat, s': nat, unit: int, env: Env)
    requires s != s' && unit >= 256 && env.be
    ensures
      var st := Run([RegisterCall(s, unit, env), RegisterCall(s', unit, env)]);
      && s in st.links && s' in st.links && st.Link(s).mld == Some(0) && st.Link(s').mld == Some(2)
      && st.Order(env.typ) == [0, 2] && st.Mld(0).unit == st.Mld(2).unit == ToUint8(unit)
  {
    var c1, c2 := RegisterCall(s, unit, env), RegisterCall(s', unit, env);
    assert [c1, c2][..1] == [c1];
    FirstRegistration(s, unit, env);
    var st1 := Run([c1]);
    assert Run([c1, c2]) == Register(st1, s', unit, env);
    hide Run;
    assert st1.Order(env.typ) == [0];
    FindInSingle(st1, unit);
    hide FindIn, InsertPos, ToUint8;
    var st2 := CreateMld(st1, env.typ, unit);
    assert InsertAt([0], 1, 2) == [0, 2];
    assert st2.Order(env.typ) == [0, 2] && TargetMld(st1, unit, env) == (st2, Some(2));
    assert NewLink(st2, s').Mld(2) == MldRec(env.typ, ToUint8(unit), [], None);
  }

  lemma FindInSingle(st: State, unit: int)
    requires unit >= 0 && 0 in st.mlds && st.Mld(0).unit == ToUint8(unit)
    ensures FindIn(st, [0], unit) == if unit < 256 then Some(0) else None
    ensures unit >= 256 ==> InsertPos(st, [0], unit) == 1
  {
    assert [0][..0] == [] && [0][1..] == [];
  }

  /** In an empty manager, two SSIDs registered in turn for one unit share an MLD exactly when
      the unit fits the byte that stores it: a greater unit is never found again, so each
      registration makes a new MLD, filed under the truncated unit. */
  lemma SharedExactlyWhenUnitFits(s: nat, s': nat, unit: int, env: Env)
    requires s != s' && unit >= 0 && env.be
    ensures
      var st := Run([RegisterCall(s, unit, env), RegisterCall(s', unit, env)]);
      && s in st.links && s' in st.links
      && (st.Link(s).mld == st.Link(s').mld <==> unit < 256)
      && (Ascending(st) <==> unit < 256)
  {
    hide Run;
    var cs := [RegisterCall(s, unit, env), RegisterCall(s', unit, env)];
    if unit < 256 {
      SecondFits(s, s', unit, env);
      RunAscending(cs);
    } else {
      SecondOverflows(s, s', unit, env);
      assert !AscendingList(Run(cs), [0, 2]) by { assert [0, 2][0] == 0 && [0, 2][1] == 2; }
    }
  }
}
