/**
  Registrations whose unit does not fit the byte that stores it: exactly when they cost
  the lists of MLDs their order, and the change events their meaning.
 */
module MldOverflow {
  import opened Collections
  import opened MldModel
  import opened MldWellFormed
  import opened MldRuns
  import opened MldRegistry
  import opened MldEvents

  // ---------- the order of the lists ----------

  lemma {:induction false} InsertPosEnd(st: State, xs: seq<nat>, unit: int)
    requires forall a :: a in xs ==> st.Mld(a).unit <= unit
    ensures InsertPos(st, xs, unit) == |xs|
  {
  }

  lemma RemoveOnly(xs: seq<nat>, s: nat)
    requires NoDup(xs) && s in xs
    ensures Remove(xs, s) == [] <==> xs == [s]
  {
    if |xs| == 1 { assert xs == [xs[0]]; }
  }

  /** The list of MLDs of one type, after the link left its own. */
  function OrderWithout(st: State, s: nat, t: SsidType): seq<nat> {
    if s in st.links && st.Home(s).links == [s] && st.Home(s).typ == t
    then Remove(st.Order(t), st.Link(s).mld.value) else st.Order(t)
  }

  lemma ResetLinkIdShape(st: State, s: nat)
    requires WF(st) && s in st.links && st.Link(s).mld.Some?
    ensures
      var a, r := st.Link(s).mld.value, ResetLinkId(st, s);
      r.order == st.order && r.Link(s).mld == Some(a) && r.Mld(a).links == st.Mld(a).links &&
        r.Mld(a).typ == st.Mld(a).typ
  {
    hide OrderOk, AddrOk, MembersOk;
    HomeExists(st, s);
  }

  lemma TakeLinkOrder(st: State, s: nat, t: SsidType)
    requires WF(st) && s in st.links && st.Link(s).mld.Some?
    ensures TakeLink(st, s).Order(t) == OrderWithout(st, s, t)
    ensures DeinitLink(st, s).Order(t) == OrderWithout(st, s, t)
  {
    hide OrderOk, MembersOk, AddrOk, Remove, ResetLinkId;
    HomeExists(st, s);
    RemoveOnly(st.Home(s).links, s);
    ResetLinkIdShape(st, s);
  }

  /** Where a registration with an overflowing unit puts its new MLD: at the end. */
  lemma OverflowCreates(st: State, unit: int, env: Env)
    requires WF(st) && Bytes(st) && unit >= 256 && env.be
    ensures
      var (st1, tgt) := TargetMld(st, unit, env);
      && tgt == Some(st.next) && st1 == CreateMld(st, env.typ, unit)
      && st1.order == st.order[env.typ := st.Order(env.typ) + [st.next]]
  {
    hide OrderOk, MembersOk, AddrOk, InsertAt, InsertPos;
    ListedExist(st, env.typ);
    var xs := st.Order(env.typ);
    InsertPosEnd(st, xs, unit);
    assert InsertAt(xs, |xs|, st.next) == xs + [st.next];
  }

  /** A registration that makes a new MLD moves its link there from wherever it was. */
  lemma RegisterToNew(st: State, s: nat, unit: int, env: Env)
    requires Complete(st) && unit >= 0 && env.be && FindIn(st, st.Order(env.typ), unit).None?
    ensures
      var st1 := CreateMld(st, env.typ, unit);
      var st2 := if s in st.links then TakeLink(st1, s) else NewLink(st1, s);
      Register(st, s, unit, env) == Attach(st2, s, st.next, unit)
  {
    hide OrderOk, MembersOk, AddrOk, TakeLink, Attach, FindIn, CreateMld, DeinitLink, NewLink;
    TargetMldOk(st, unit, env);
    if s in st.links { NextIsFree(st, s); }
  }

  lemma CreatedHome(st: State, s: nat, typ: SsidType, unit: int)
    requires WF(st) && s in st.links && st.Link(s).mld.Some?
    ensures
      var st1 := CreateMld(st, typ, unit);
      && WF(st1) && st1.Link(s) == st.Link(s) && st1.Home(s) == st.Home(s) && st.Link(s).mld.value != st.next
      && forall a :: a in st.mlds ==> a in st1.mlds && st1.mlds[a] == st.mlds[a]
  {
    hide OrderOk, MembersOk, InsertAt, InsertPos;
    HomeExists(st, s);
    CreateMldOk(st, typ, unit);
  }

  lemma AttachOrder(st: State, s: nat, a: nat, unit: int)
    requires a in st.mlds
    ensures Attach(st, s, a, unit).order == st.order && Attach(NewLink(st, s), s, a, unit).order == st.order
    ensures forall b :: Attach(st, s, a, unit).Mld(b).unit == st.Mld(b).unit
    ensures forall b :: Attach(NewLink(st, s), s, a, unit).Mld(b).unit == st.Mld(b).unit
  {
  }

  /** The lists after a registration with an overflowing unit: the link's old MLD is gone if
      that was its only link, and the new MLD is at the end. */
  lemma OverflowOrder(st: State, s: nat, unit: int, env: Env, t: SsidType)
    requires Complete(st) && Bytes(st) && unit >= 256 && env.be
    ensures
      var r := Register(st, s, unit, env);
      && r.Order(t) == OrderWithout(st, s, t) + (if t == env.typ then [st.next] else [])
      && r.Mld(st.next).unit == ToUint8(unit)
      && forall a :: a in OrderWithout(st, s, t) ==> r.Mld(a).unit == st.Mld(a).unit
  {
    hide OrderOk, MembersOk, AddrOk, TakeLink, Attach, FindIn, CreateMld, NewLink, TargetMld, Register, ToUint8,
      Bytes, OrderWithout;
    OverflowCreates(st, unit, env);
    var st1 := CreateMld(st, env.typ, unit);
    OverflowMisses(st, unit, env);
    RegisterToNew(st, s, unit, env);
    NewMldUnit(st, env.typ, unit);
    if s in st.links {
      CreatedHome(st, s, env.typ, unit);
      TakeLinkOrder(st1, s, t);
      TakeLinkKeeps(st1, s, st.next);
      AttachOrder(TakeLink(st1, s), s, st.next, unit);
      OrderWithoutNew(st, s, unit, env, t);
      SurvivorUnits(st, s, unit, env, t);
    } else {
      AttachOrder(st1, s, st.next, unit);
      OrderWithoutNone(st, s, t);
      ListedExist(st, t);
    }
  }

  lemma OverflowMisses(st: State, unit: int, env: Env)
    requires WF(st) && Bytes(st) && unit >= 256
    ensures FindIn(st, st.Order(env.typ), unit).None?
  {
    hide OrderOk, MembersOk, AddrOk;
    ListedExist(st, env.typ);
  }

  lemma NewMldUnit(st: State, typ: SsidType, unit: int)
    requires WF(st)
    ensures st.next in CreateMld(st, typ, unit).mlds && CreateMld(st, typ, unit).Mld(st.next).unit == ToUint8(unit)
    ensures forall a :: a in st.mlds ==>
      a in CreateMld(st, typ, unit).mlds && CreateMld(st, typ, unit).mlds[a] == st.mlds[a]
  {
    hide OrderOk, MembersOk, InsertAt, InsertPos, ToUint8;
  }

  lemma OrderWithoutNone(st: State, s: nat, t: SsidType)
    requires s !in st.links
    ensures OrderWithout(st, s, t) == st.Order(t)
  {
  }

  lemma OrderWithoutNew(st: State, s: nat, unit: int, env: Env, t: SsidType)
    requires Complete(st) && Bytes(st) && unit >= 256 && env.be && s in st.links
    ensures OrderWithout(CreateMld(st, env.typ, unit), s, t) ==
            OrderWithout(st, s, t) + if t == env.typ then [st.next] else []
  {
    hide OrderOk, MembersOk, AddrOk, CreateMld, TargetMld, Bytes;
    OverflowCreates(st, unit, env);
    CreatedHome(st, s, env.typ, unit);
    HomeExists(st, s);
    ListedHome(st, s);
    RemoveAppended(st.Order(t), st.Link(s).mld.value, st.next);
  }

  lemma ListedHome(st: State, s: nat)
    requires WF(st) && s in st.links && st.Link(s).mld.Some?
    ensures st.Link(s).mld.value in st.Order(st.Home(s).typ)
  {
    hide NoDup;
  }

  lemma RemoveAppended(xs: seq<nat>, a: nat, b: nat)
    requires a != b
    ensures Remove(xs + [b], a) == Remove(xs, a) + [b]
  {
    hide IndexOf;
    if a in xs {
      var k := IndexOf(xs, a);
      IndexInAppended(xs, a, b);
      assert (xs + [b])[..k] == xs[..k] && (xs + [b])[k + 1..] == xs[k + 1..] + [b];
    }
  }

  lemma IndexInAppended(xs: seq<nat>, a: nat, b: nat)
    requires a in xs
    ensures a in xs + [b] && IndexOf(xs + [b], a) == IndexOf(xs, a)
  {
    hide IndexOf;
    assert (xs + [b])[IndexOf(xs, a)] == a;
  }

  lemma SurvivorUnits(st: State, s: nat, unit: int, env: Env, t: SsidType)
    requires Complete(st) && s in st.links
    ensures forall a :: a in OrderWithout(st, s, t) ==>
      TakeLink(CreateMld(st, env.typ, unit), s).Mld(a).unit == st.Mld(a).unit
  {
    hide OrderOk, MembersOk, AddrOk, CreateMld, TakeLink;
    var st1 := CreateMld(st, env.typ, unit);
    CreatedHome(st, s, env.typ, unit);
    ListedExist(st, t);
    HomeExists(st, s);
    RemoveOnly(st.Home(s).links, s);
    Survivors(st, s, t);
    TakeLinkShape(st1, s);
    hide OrderWithout, Remove;
    forall a | a in OrderWithout(st, s, t) ensures TakeLink(st1, s).Mld(a).unit == st.Mld(a).unit {
      if st.Link(s).mld != Some(a) {
        TakeLinkKeeps(st1, s, a);
      } else {
        assert Remove(st1.mlds[a].links, s) != [];
      }
    }
  }

  /** A caller's check: every MLD of the type that survives the call is below the stored unit. */
  predicate RoomAtEnd(st: State, c: Call)
    requires c.RegisterCall?
  {
    forall a :: a in st.Order(c.env.typ) && st.Mld(a).links != [c.ssid] ==> st.Mld(a).unit < ToUint8(c.unit)
  }

  /** The MLDs of the type that survive are those that hold more than this link. */
  lemma Survivors(st: State, s: nat, t: SsidType)
    requires Complete(st)
    ensures forall a :: a in OrderWithout(st, s, t) <==> a in st.Order(t) && st.Mld(a).links != [s]
  {
    hide OrderOk, AddrOk, NoDup;
    ListedExist(st, t);
    if s in st.links && st.Home(s).links == [s] {
      RemoveNoDup(st.Order(t), st.Link(s).mld.value);
    }
    forall a | a in st.Order(t) && st.Mld(a).links == [s] ensures s in st.links && st.Link(s).mld == Some(a) {
      ListedLink(st, a);
      assert s in st.mlds[a].links;
    }
  }

  lemma AppendAscending(st: State, xs: seq<nat>, a: nat)
    requires AscendingList(st, xs)
    ensures AscendingList(st, xs + [a]) <==> forall x :: x in xs ==> st.Mld(x).unit < st.Mld(a).unit
  {
    var ys := xs + [a];
    if AscendingList(st, ys) {
      forall x | x in xs ensures st.Mld(x).unit < st.Mld(a).unit {
        var i := IndexOf(xs, x);
        assert ys[i] == x && ys[|xs|] == a;
      }
    }
  }

  lemma OrderWithoutAscending(st: State, s: nat, t: SsidType)
    requires Ascending(st)
    ensures AscendingList(st, OrderWithout(st, s, t))
  {
    hide AscendingList, Remove;
    assert AscendingList(st, st.Order(t));
    if s in st.links && st.Home(s).links == [s] && st.Home(s).typ == t {
      RemoveAscending(st, st.Order(t), st.Link(s).mld.value);
    }
  }

  lemma OverflowAscending(st: State, c: Call)
    requires Complete(st) && Bytes(st) && Ascending(st) && c.RegisterCall? && !UnitFits(c)
    ensures Ascending(Step(st, c)) <==> RoomAtEnd(st, c)
  {
    hide Complete, Bytes, Register, OrderWithout, AscendingList, ToUint8;
    var s, unit, env, r := c.ssid, c.unit, c.env, Step(st, c);
    var u := env.typ;
    forall t: SsidType ensures AscendingList(r, OrderWithout(st, s, t)) {
      OverflowOrder(st, s, unit, env, t);
      OrderWithoutAscending(st, s, t);
      AscendingListFrame(st, r, OrderWithout(st, s, t));
    }
    forall t: SsidType | t != u ensures AscendingList(r, r.Order(t)) {
      OverflowOrder(st, s, unit, env, t);
      assert OrderWithout(st, s, t) + [] == OrderWithout(st, s, t);
    }
    OverflowOrder(st, s, unit, env, u);
    AppendAscending(r, OrderWithout(st, s, u), st.next);
    Survivors(st, s, u);
  }

  /** From ascending lists, a call leads to ascending lists exactly when its unit fits the
      byte, or its MLD, put last as its unit asks for, is also last by its stored unit. */
  lemma ListsStayAscendingExactly(calls: seq<Call>, c: Call)
    requires Ascending(Run(calls))
    ensures Ascending(Run(calls + [c])) <==> UnitFits(c) || RoomAtEnd(Run(calls), c)
  {
    assert (calls + [c])[..|calls|] == calls;
    assert Run(calls + [c]) == Step(Run(calls), c);
    RunComplete(calls);
    RunBytes(calls);
    hide Run, Step, Complete, Ascending, Bytes, RoomAtEnd;
    if UnitFits(c) {
      StepAscending(Run(calls), c);
    } else {
      OverflowAscending(Run(calls), c);
    }
  }

  // ---------- the change events ----------

  /** No DEL names a unit beyond a byte. */
  ghost predicate DelsFit(events: seq<Event>) {
    forall e :: e in events && e.kind == Del ==> e.unit < 256
  }

  /** Without a DEL an announced MLD stays announced, or the events go wrong. */
  lemma {:induction false} StaysAnnounced(events: seq<Event>, key: Key)
    requires DelsFit(events) && key.unit >= 256 && PhaseAfter(events, key) == Absent
    ensures forall e :: e in events ==> Key(e.typ, e.unit) != key
  {
    if events != [] {
      var n := |events| - 1;
      assert events[n] in events && forall e :: e in events[..n] ==> e in events;
      StaysAnnounced(events[..n], key);
      assert events == events[..n] + [events[n]];
    }
  }

  /** The events of a call come after those before it, and a DEL among them fits a byte. */
  ghost predicate Grows(st: State, r: State) {
    && |st.events| <= |r.events| && r.events[..|st.events|] == st.events
    && (DelsFit(st.events) ==> DelsFit(r.events))
  }

  lemma TakeLinkGrows(st: State, s: nat)
    requires WF(st) && Bytes(st) && s in st.links && st.Link(s).mld.Some?
    ensures Grows(st, TakeLink(st, s)) && Grows(st, DeinitLink(st, s))
  {
    hide OrderOk, AddrOk, MembersOk, TakeLink, Remove;
    TakeLinkShape(st, s);
  }

  lemma AttachGrows(st: State, s: nat, a: nat, unit: int)
    ensures Grows(st, Attach(st, s, a, unit)) && Grows(st, Attach(NewLink(st, s), s, a, unit))
  {
  }

  lemma GrowsTrans(st: State, st1: State, r: State)
    requires Grows(st, st1) && Grows(st1, r)
    ensures Grows(st, r)
  {
    assert r.events[..|st.events|] == r.events[..|st1.events|][..|st.events|];
  }

  lemma RegisterGrows(st: State, s: nat, unit: int, env: Env)
    requires Complete(st) && Bytes(st)
    ensures Grows(st, Register(st, s, unit, env))
  {
    hide OrderOk, AddrOk, MembersOk, TargetMld, TakeLink, DeinitLink, Attach, NewLink, Bytes, Grows;
    var (st1, tgt) := TargetMld(st, unit, env);
    TargetMldOk(st, unit, env);
    TargetMldBytes(st, unit, env);
    assert Grows(st, st1) by { SameEventsGrow(st, st1); }
    if s in st.links { TakeLinkGrows(st1, s); }
    if tgt.Some? {
      AttachGrows(st1, s, tgt.value, unit);
      AttachGrows(TakeLink(st1, s), s, tgt.value, unit);
      AttachGrows(DeinitLink(st1, s), s, tgt.value, unit);
      GrowsTrans(st, st1, Attach(NewLink(st1, s), s, tgt.value, unit));
      if s in st.links {
        GrowsTrans(st, st1, TakeLink(st1, s));
        GrowsTrans(st, st1, DeinitLink(st1, s));
        GrowsTrans(st, TakeLink(st1, s), Attach(TakeLink(st1, s), s, tgt.value, unit));
        GrowsTrans(st, DeinitLink(st1, s), Attach(NewLink(DeinitLink(st1, s), s), s, tgt.value, unit));
      }
    } else if s in st.links {
      GrowsTrans(st, st1, DeinitLink(st1, s));
    }
  }

  lemma SameEventsGrow(st: State, r: State)
    requires r.events == st.events
    ensures Grows(st, r)
  {
  }

  lemma StepGrows(st: State, c: Call)
    requires Complete(st) && Bytes(st)
    ensures Grows(st, Step(st, c))
  {
    hide OrderOk, MembersOk, AddrOk, Register, DeinitLink, SetLinkId, SetPrimary, SaveConfigured, Grows, Bytes;
    SameEventsGrow(st, st);
    match c
    case RegisterCall(s, unit, env) => RegisterGrows(st, s, unit, env);
    case UnregisterCall(s) => if s in st.links { TakeLinkGrows(st, s); }
    case SetLinkIdCall(s, id, env) =>
      if s in st.links { SetLinkIdComplete(st, s, id, env); SameEventsGrow(st, Step(st, c)); }
    case SetPrimaryCall(s, env) =>
      if s in st.links { SetPrimaryComplete(st, s, env); SameEventsGrow(st, Step(st, c)); }
    case SaveConfiguredCall(s, flag, env) =>
      if s in st.links { SaveConfiguredComplete(st, s, flag, env); SameEventsGrow(st, Step(st, c)); }
    case SetConfiguredCall(s, flag, env) =>
      if s in st.links { SetConfiguredGrows(st, s, flag, env); }
  }

  lemma SetConfiguredGrows(st: State, s: nat, flag: bool, env: Env)
    requires Complete(st) && s in st.links
    ensures Grows(st, SetConfigured(st, s, flag, env))
  {
    hide OrderOk, MembersOk, AddrOk, SaveConfigured;
    SaveConfiguredComplete(st, s, flag, env);
  }

  /** A registration with an overflowing unit announces a new MLD under the unit asked for. */
  lemma OverflowAnnounces(st: State, s: nat, unit: int, env: Env)
    requires Complete(st) && Bytes(st) && unit >= 256 && env.be
    ensures Event(Add, env.typ, unit, s) in Register(st, s, unit, env).events
  {
    hide OrderOk, MembersOk, AddrOk, TakeLink, Attach, FindIn, CreateMld, Register, Bytes, TargetMld;
    OverflowMisses(st, unit, env);
    RegisterToNew(st, s, unit, env);
    NewMldEmpty(st, env.typ, unit);
    var st1 := CreateMld(st, env.typ, unit);
    if s in st.links {
      CreatedHome(st, s, env.typ, unit);
      TakeLinkKeeps(st1, s, st.next);
      AttachToEmpty(TakeLink(st1, s), s, st.next, unit);
    } else {
      AttachToEmpty(NewLink(st1, s), s, st.next, unit);
    }
  }

  lemma NewMldEmpty(st: State, typ: SsidType, unit: int)
    ensures
      var r := CreateMld(st, typ, unit);
      st.next in r.mlds && r.mlds[st.next].links == [] && r.mlds[st.next].typ == typ && r.links == st.links
  {
    hide InsertAt, InsertPos;
  }

  lemma {:induction false} RunDelsFit(calls: seq<Call>)
    ensures DelsFit(Run(calls).events)
  {
    if calls != [] {
      var n := |calls| - 1;
      RunDelsFit(calls[..n]);
      RunComplete(calls[..n]);
      RunBytes(calls[..n]);
      hide Complete, Bytes, Step, DelsFit;
      StepGrows(Run(calls[..n]), calls[n]);
    }
  }

  lemma {:induction false} OverflowRemembered(calls: seq<Call>, i: nat)
    requires i < |calls| && !UnitFits(calls[i])
    ensures Event(Add, calls[i].env.typ, calls[i].unit, calls[i].ssid) in Run(calls).events
  {
    var n := |calls| - 1;
    var st, c := Run(calls[..n]), calls[n];
    RunComplete(calls[..n]);
    RunBytes(calls[..n]);
    if i == n {
      hide Complete, Bytes, Register;
      OverflowAnnounces(st, c.ssid, c.unit, c.env);
    } else {
      OverflowRemembered(calls[..n], i);
      var e := Event(Add, calls[i].env.typ, calls[i].unit, calls[i].ssid);
      assert Run(calls) == Step(st, c);
      hide Complete, Bytes, Step, DelsFit, Run, UnitFits;
      StepGrows(st, c);
      assert e in Step(st, c).events[..|st.events|];
    }
  }

  /** The events of one type and unit are a prefix of (ADD UPDATE* DEL)*, and end inside an ADD exactly when there
      is such an MLD. */
  ghost predicate Tells(st: State, key: Key) {
    PhaseAfter(st.events, key) == if exists a :: a in st.mlds && KeyAt(st, a) == key then Present else Absent
  }

  /** The events of a run tell the MLDs of all types and units exactly when each unit that asked for an MLD fits a
      byte. */
  lemma EventsTellExactly(calls: seq<Call>)
    ensures (forall key :: Tells(Run(calls), key)) <==> UnitsFit(calls)
  {
    if UnitsFit(calls) {
      forall key ensures Tells(Run(calls), key) {
        hide Run, UnitsFit;
        EventsAnnounceMlds(calls, key);
        SameMlds(Run(calls), key);
      }
    } else {
      var i :| 0 <= i < |calls| && !UnitFits(calls[i]);
      var key := Key(calls[i].env.typ, calls[i].unit);
      hide Run, UnitsFit;
      OverflowRemembered(calls, i);
      RunDelsFit(calls);
      RunBytes(calls);
      assert !Tells(Run(calls), key) by { NotTold(Run(calls), key, Event(Add, key.typ, key.unit, calls[i].ssid)); }
    }
  }

  lemma SameMlds(st: State, key: Key)
    ensures (exists a :: a in st.mlds && Key(st.mlds[a].typ, st.mlds[a].unit) == key) <==>
      exists a :: a in st.mlds && KeyAt(st, a) == key
  {
    forall a | a in st.mlds ensures KeyAt(st, a) == Key(st.mlds[a].typ, st.mlds[a].unit) {
    }
    if exists a :: a in st.mlds && Key(st.mlds[a].typ, st.mlds[a].unit) == key {
      var a :| a in st.mlds && Key(st.mlds[a].typ, st.mlds[a].unit) == key;
      assert KeyAt(st, a) == key;
    }
  }

  lemma NotTold(st: State, key: Key, e: Event)
    requires Bytes(st) && DelsFit(st.events) && key.unit >= 256
    requires e in st.events && Key(e.typ, e.unit) == key
    ensures !Tells(st, key)
  {
    if PhaseAfter(st.events, key) == Absent {
      StaysAnnounced(st.events, key);
    }
  }
}
