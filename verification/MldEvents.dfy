/** The change events of a run, seen per type and unit. */
module MldEvents {
  import opened Collections
  import opened MldModel
  import opened MldWellFormed
  import opened MldRuns
  import opened MldRegistry

  datatype Phase = Absent | Present | Broken

  /** The automaton of (ADD UPDATE* DEL)* over the events of one type and unit. */
  function PhaseAfter(events: seq<Event>, key: Key): Phase {
    if events == [] then Absent
    else
      var p, e := PhaseAfter(events[..|events| - 1], key), events[|events| - 1];
      if Key(e.typ, e.unit) != key then p
      else
        match (p, e.kind)
        case (Absent, Add) => Present
        case (Present, Update) => Present
        case (Present, Del) => Absent
        case _ => Broken
  }

  /** The kinds of the events of one type and unit. */
  function Kinds(events: seq<Event>, key: Key): seq<EventKind> {
    if events == [] then []
    else
      var e := events[|events| - 1];
      Kinds(events[..|events| - 1], key) + if Key(e.typ, e.unit) == key then [e.kind] else []
  }

  /** An MLD of this type and unit that has a link. */
  ghost predicate HasMld(st: State, key: Key) {
    exists a :: a in st.mlds && st.mlds[a].links != [] && Key(st.mlds[a].typ, st.mlds[a].unit) == key
  }

  /** The events tell exactly which MLDs there are. */
  ghost predicate Announced(st: State, key: Key) {
    PhaseAfter(st.events, key) == if HasMld(st, key) then Present else Absent
  }

  lemma PhaseStep(events: seq<Event>, e: Event, key: Key)
    ensures
      var p := PhaseAfter(events, key);
      PhaseAfter(events + [e], key) ==
      if Key(e.typ, e.unit) != key then p
      else if p == Absent && e.kind == Add then Present
      else if p == Present && e.kind == Update then Present
      else if p == Present && e.kind == Del then Absent
      else Broken
  {
    assert (events + [e])[..|events|] == events;
  }

  // ---------- steps ----------

  lemma SameHomesAnnounced(st: State, r: State, key: Key)
    requires SameHomes(st, r) && r.events == st.events && Announced(st, key)
    ensures Announced(r, key)
  {
    forall a | a in st.mlds ensures r.mlds[a].links == [] <==> st.mlds[a].links == [] {
      assert |r.mlds[a].links| == |st.mlds[a].links|;
    }
  }

  lemma SetConfiguredAnnounced(st: State, s: nat, flag: bool, env: Env, key: Key)
    requires WF(st) && s in st.links && st.Link(s).mld.Some? && Announced(st, key)
    ensures Announced(SetConfigured(st, s, flag, env), key)
  {
    hide OrderOk, MembersOk, AddrOk, SaveConfigured, Announced;
    var st1 := SaveConfigured(st, s, flag, env);
    SaveConfiguredComplete(st, s, flag, env);
    SameHomesAnnounced(st, st1, key);
    HomeExists(st, s);
    var a := st.Link(s).mld.value;
    var m := st.Home(s);
    PhaseStep(st1.events, Event(Update, m.typ, m.unit, s), key);
    assert SetConfigured(st, s, flag, env).mlds == st1.mlds;
    assert |st1.mlds[a].links| == |m.links|;
    assert Announced(SetConfigured(st, s, flag, env), key) by { UpdateAnnounced(st1, a, s, key); }
  }

  lemma UpdateAnnounced(st: State, a: nat, s: nat, key: Key)
    requires Announced(st, key) && a in st.mlds && st.mlds[a].links != []
    ensures Announced(st.WithEvent(Event(Update, st.mlds[a].typ, st.mlds[a].unit, s)), key)
  {
    PhaseStep(st.events, Event(Update, st.mlds[a].typ, st.mlds[a].unit, s), key);
  }

  lemma TargetMldAnnounced(st: State, unit: int, env: Env, key: Key)
    requires WF(st) && Announced(st, key)
    ensures Announced(TargetMld(st, unit, env).0, key)
  {
    hide OrderOk, MembersOk, InsertAt, InsertPos, PhaseAfter;
    var r := TargetMld(st, unit, env).0;
    if HasMld(st, key) {
      var a :| a in st.mlds && st.mlds[a].links != [] && Key(st.mlds[a].typ, st.mlds[a].unit) == key;
      assert a in r.mlds && r.mlds[a] == st.mlds[a];
    }
  }

  /** The only MLD of its key may vanish, with an announcement; all others stay. */
  lemma DestroyAnnounced(st: State, r: State, a: nat, s: nat, key: Key)
    requires a in st.mlds && st.mlds[a].links != []
    requires forall b :: b in st.mlds && st.mlds[b].typ == st.mlds[a].typ && st.mlds[b].unit == st.mlds[a].unit ==>
      b == a
    requires r.mlds == st.mlds - {a} && r.events == st.events + [Event(Del, st.mlds[a].typ, st.mlds[a].unit, s)]
    requires Announced(st, key)
    ensures Announced(r, key)
  {
    PhaseStep(st.events, Event(Del, st.mlds[a].typ, st.mlds[a].unit, s), key);
    hide PhaseAfter;
    if key != Key(st.mlds[a].typ, st.mlds[a].unit) && HasMld(st, key) {
      var b :| b in st.mlds && st.mlds[b].links != [] && Key(st.mlds[b].typ, st.mlds[b].unit) == key;
      assert b in r.mlds && r.mlds[b] == st.mlds[b];
    }
  }

  /** Either the link left a list that still has members, or it was the last and its MLD went with it. */
  lemma TakeLinkShape(st: State, s: nat)
    requires WF(st) && s in st.links && st.Link(s).mld.Some?
    ensures
      var a, r := st.Link(s).mld.value, TakeLink(st, s);
      && a in st.mlds
      && if Remove(st.mlds[a].links, s) == []
         then r.mlds == st.mlds - {a} && r.events == st.events + [Event(Del, st.mlds[a].typ, st.mlds[a].unit, s)]
         else r.events == st.events && a in r.mlds && r.mlds - {a} == st.mlds - {a}
              && r.mlds[a].links == Remove(st.mlds[a].links, s)
              && r.mlds[a].typ == st.mlds[a].typ && r.mlds[a].unit == st.mlds[a].unit
  {
    hide OrderOk, MembersOk, AddrOk, Remove;
    HomeExists(st, s);
  }

  lemma TakeLinkAnnounced(st: State, s: nat, key: Key)
    requires WF(st) && Ascending(st) && s in st.links && st.Link(s).mld.Some? && Announced(st, key)
    ensures Announced(TakeLink(st, s), key) && Announced(DeinitLink(st, s), key)
  {
    hide MembersOk, AddrOk, Ascending, TakeLink, Remove;
    TakeLinkShape(st, s);
    HomeExists(st, s);
    var a, r := st.Link(s).mld.value, TakeLink(st, s);
    forall b | b in st.mlds && st.mlds[b].typ == st.mlds[a].typ && st.mlds[b].unit == st.mlds[a].unit ensures b == a {
      hide OrderOk;
      UnitsIdentify(st, a, b);
    }
    hide OrderOk;
    if Remove(st.mlds[a].links, s) == [] {
      DestroyAnnounced(st, r, a, s, key);
    } else {
      hide PhaseAfter;
      forall b | b in st.mlds
        ensures b in r.mlds && r.mlds[b].typ == st.mlds[b].typ && r.mlds[b].unit == st.mlds[b].unit
        ensures r.mlds[b].links == [] <==> st.mlds[b].links == [] {
        if b != a { assert b in st.mlds - {a} && (st.mlds - {a})[b] == st.mlds[b] && (r.mlds - {a})[b] == r.mlds[b]; }
      }
      assert r.mlds.Keys == st.mlds.Keys by {
        assert forall b :: b in r.mlds && b != a ==> b in r.mlds - {a};
      }
      assert HasMld(r, key) <==> HasMld(st, key);
    }
    assert Announced(r, key);
    assert DeinitLink(st, s).mlds == r.mlds && DeinitLink(st, s).events == r.events;
  }

  lemma AttachAnnounced(st: State, s: nat, a: nat, unit: int, key: Key)
    requires WF(st) && Ascending(st) && a in st.mlds && Announced(st, key)
    requires st.mlds[a].unit == unit
    ensures Announced(Attach(st, s, a, unit), key)
  {
    hide MembersOk, AddrOk, Ascending;
    var r := Attach(st, s, a, unit);
    var m := st.mlds[a];
    assert r.mlds == st.mlds[a := m.(links := m.links + [s])];
    PhaseStep(st.events, Event(Add, m.typ, unit, s), key);
    hide PhaseAfter;
    if HasMld(st, key) {
      var b :| b in st.mlds && st.mlds[b].links != [] && Key(st.mlds[b].typ, st.mlds[b].unit) == key;
      if m.links == [] && Key(m.typ, unit) == key { UnitsIdentify(st, a, b); }
      assert b in r.mlds && r.mlds[b].links != [];
    }
    hide OrderOk;
    assert r.mlds[a].links != [] && Key(r.mlds[a].typ, r.mlds[a].unit) == Key(m.typ, unit);
    if HasMld(r, key) && Key(m.typ, unit) != key {
      var b :| b in r.mlds && r.mlds[b].links != [] && Key(r.mlds[b].typ, r.mlds[b].unit) == key;
      assert b in st.mlds && st.mlds[b] == r.mlds[b];
    }
  }

  lemma TargetMldUnit(st: State, unit: int, env: Env)
    requires WF(st) && (env.be ==> unit < 256)
    ensures
      var (st1, tgt) := TargetMld(st, unit, env);
      tgt.Some? ==> st1.Mld(tgt.value).unit == unit && st1.Mld(tgt.value).typ == env.typ
  {
    hide OrderOk, MembersOk, AddrOk, InsertAt, InsertPos;
    ListedExist(st, env.typ);
  }

  lemma RegisterAnnounced(st: State, s: nat, unit: int, env: Env, key: Key)
    requires Complete(st) && Ascending(st) && (env.be ==> unit < 256) && Announced(st, key)
    ensures Announced(Register(st, s, unit, env), key)
  {
    hide OrderOk, MembersOk, AddrOk, Ascending, TargetMld, DeinitLink, TakeLink, Attach, Announced;
    var (st1, tgt) := TargetMld(st, unit, env);
    TargetMldOk(st, unit, env);
    TargetMldUnit(st, unit, env);
    TargetMldAscending(st, unit, env);
    TargetMldAnnounced(st, unit, env, key);
    if s in st1.links {
      TakeLinkAnnounced(st1, s, key);
      if tgt.Some? && st1.Link(s).mld != tgt {
        TakeLinkOk(st1, s);
        TakeLinkAscending(st1, s);
        TakeLinkKeeps(st1, s, tgt.value);
        AttachAnnounced(TakeLink(st1, s), s, tgt.value, unit, key);
      }
    } else if tgt.Some? {
      var st2 := NewLink(st1, s);
      NewLinkOk(st1, s);
      AscendingFrame(st1, st2);
      assert Announced(st2, key) by { NewLinkAnnounced(st1, s, key); }
      AttachAnnounced(st2, s, tgt.value, unit, key);
    }
  }

  lemma NewLinkAnnounced(st: State, s: nat, key: Key)
    requires Announced(st, key)
    ensures Announced(NewLink(st, s), key)
  {
  }

  lemma StepAnnounced(st: State, c: Call, key: Key)
    requires Complete(st) && Ascending(st) && UnitFits(c) && Announced(st, key)
    ensures Announced(Step(st, c), key)
  {
    hide OrderOk, MembersOk, AddrOk, Ascending, Register, DeinitLink, SetLinkId, SetPrimary, SaveConfigured,
      SetConfigured, Announced;
    match c
    case RegisterCall(s, unit, env) => RegisterAnnounced(st, s, unit, env, key);
    case UnregisterCall(s) => if s in st.links { TakeLinkAnnounced(st, s, key); }
    case SetLinkIdCall(s, id, env) =>
      if s in st.links { SetLinkIdComplete(st, s, id, env); SameHomesAnnounced(st, Step(st, c), key); }
    case SetPrimaryCall(s, env) =>
      if s in st.links { SetPrimaryComplete(st, s, env); SameHomesAnnounced(st, Step(st, c), key); }
    case SaveConfiguredCall(s, flag, env) =>
      if s in st.links { SaveConfiguredComplete(st, s, flag, env); SameHomesAnnounced(st, Step(st, c), key); }
    case SetConfiguredCall(s, flag, env) =>
      if s in st.links { SetConfiguredAnnounced(st, s, flag, env, key); }
  }

  // ---------- main results ----------

  /** For each type and unit, the events of any run whose units fit a byte are a prefix of
      (ADD UPDATE* DEL)*, and they end inside an ADD exactly when there is such an MLD. */
  lemma {:induction false} EventsAnnounceMlds(calls: seq<Call>, key: Key)
    requires UnitsFit(calls)
    ensures PhaseAfter(Run(calls).events, key) ==
            if exists a :: a in Run(calls).mlds && Key(Run(calls).mlds[a].typ, Run(calls).mlds[a].unit) == key
            then Present else Absent
  {
    RunAnnounced(calls, key);
    RunComplete(calls);
    hide Run, OrderOk, MembersOk, AddrOk;
    var st := Run(calls);
    if exists a :: a in st.mlds && Key(st.mlds[a].typ, st.mlds[a].unit) == key {
      var a :| a in st.mlds && Key(st.mlds[a].typ, st.mlds[a].unit) == key;
      assert st.mlds[a].links != [];
    }
  }

  lemma {:induction false} RunAnnounced(calls: seq<Call>, key: Key)
    requires UnitsFit(calls)
    ensures Announced(Run(calls), key)
  {
    if calls != [] {
      var n := |calls| - 1;
      assert UnitFits(calls[n]);
      RunAnnounced(calls[..n], key);
      RunComplete(calls[..n]);
      RunAscending(calls[..n]);
      hide Ascending, Complete, Step, Announced;
      StepAnnounced(Run(calls[..n]), calls[n], key);
    }
  }

  /** The kinds form a prefix of (ADD UPDATE* DEL)*: the first is an ADD, and what follows
      a DEL, and nothing else, is an ADD. */
  ghost predicate AddUpdatesDel(ks: seq<EventKind>) {
    && (ks != [] ==> ks[0] == Add)
    && (forall i :: 0 <= i < |ks| - 1 ==> (ks[i] == Del <==> ks[i + 1] == Add))
  }

  /** The automaton accepts exactly those prefixes, and is inside an ADD exactly when the last kind is not a DEL. */
  lemma {:induction false} AcceptedKinds(events: seq<Event>, key: Key)
    ensures PhaseAfter(events, key) != Broken <==> AddUpdatesDel(Kinds(events, key))
    ensures
      var ks := Kinds(events, key);
      PhaseAfter(events, key) != Broken ==> (PhaseAfter(events, key) == Present <==> ks != [] && ks[|ks| - 1] != Del)
  {
    if events != [] {
      var n := |events| - 1;
      AcceptedKinds(events[..n], key);
      var ks, ks' := Kinds(events[..n], key), Kinds(events, key);
      assert AddUpdatesDel(ks') ==> AddUpdatesDel(ks) by {
        assert forall i :: 0 <= i < |ks| ==> ks'[i] == ks[i];
      }
      if ks' != ks && ks != [] {
        assert ks'[|ks|] == events[n].kind && ks'[|ks| - 1] == ks[|ks| - 1];
      }
    }
  }

  /** For each type and unit, the kinds of the events of any run whose units fit a byte form a prefix of (ADD
      UPDATE* DEL)*. */
  lemma EventLanguage(calls: seq<Call>, key: Key)
    requires UnitsFit(calls)
    ensures AddUpdatesDel(Kinds(Run(calls).events, key))
  {
    hide Run;
    EventsAnnounceMlds(calls, key);
    AcceptedKinds(Run(calls).events, key);
  }

  /** Moving the only link of an MLD to a unit without an MLD emits DEL for the old unit, then ADD for the new. */
  lemma MovingTheOnlyLink(st: State, s: nat, unit: int, env: Env)
    requires Complete(st) && 0 <= unit < 256 && env.be
    requires s in st.links && st.Home(s).links == [s]
    requires FindIn(st, st.Order(env.typ), unit).None?
    ensures Register(st, s, unit, env).events == st.events + [
      Event(Del, st.Home(s).typ, st.Home(s).unit, s), Event(Add, env.typ, unit, s)]
  {
    hide OrderOk, MembersOk, AddrOk, TakeLink, Attach, FindIn, InsertAt, InsertPos;
    TargetMldOk(st, unit, env);
    HomeExists(st, s);
    NextIsFree(st, s);
    var (st1, tgt) := TargetMld(st, unit, env);
    assert tgt == Some(st.next) && st1.Mld(st.next) == MldRec(env.typ, unit, [], None);
    assert st1.Link(s) == st.Link(s) && st1.Home(s) == st.Home(s);
    hide TargetMld;
    assert Remove([s], s) == [];
    TakeLinkShape(st1, s);
    TakeLinkKeeps(st1, s, st.next);
    TakeLinkOk(st1, s);
    AttachToEmpty(TakeLink(st1, s), s, st.next, unit);
  }

  lemma NextIsFree(st: State, s: nat)
    requires WF(st) && s in st.links
    ensures st.Link(s).mld != Some(st.next)
  {
  }

  lemma AttachToEmpty(st: State, s: nat, a: nat, unit: int)
    requires a in st.mlds && st.mlds[a].links == []
    ensures Attach(st, s, a, unit).events == st.events + [Event(Add, st.mlds[a].typ, unit, s)]
  {
  }

  /** A registration that is undone is reported as undone exactly when its unit fits the
      byte that stores it: the DEL carries the stored unit, the ADD the one asked for. */
  lemma UndoneExactlyWhenUnitFits(s: nat, unit: int, env: Env)
    requires unit >= 0 && env.be
    ensures
      var es := Run([RegisterCall(s, unit, env), UnregisterCall(s)]).events;
      && es == [Event(Add, env.typ, unit, s), Event(Del, env.typ, ToUint8(unit), s)]
      && (PhaseAfter(es, Key(env.typ, unit)) == Absent <==> unit < 256)
      && (PhaseAfter(es, Key(env.typ, ToUint8(unit))) != Broken <==> unit < 256)
  {
    UndoneEvents(s, unit, env);
    hide Run;
    var e1, e2 := Event(Add, env.typ, unit, s), Event(Del, env.typ, ToUint8(unit), s);
    assert [e1] + [e2] == [e1, e2] && [] + [e1] == [e1];
    PhaseStep([], e1, Key(env.typ, unit));
    PhaseStep([e1], e2, Key(env.typ, unit));
    PhaseStep([], e1, Key(env.typ, ToUint8(unit)));
    PhaseStep([e1], e2, Key(env.typ, ToUint8(unit)));
  }

  lemma UndoneEvents(s: nat, unit: int, env: Env)
    requires unit >= 0 && env.be
    ensures Run([RegisterCall(s, unit, env), UnregisterCall(s)]).events
         == [Event(Add, env.typ, unit, s), Event(Del, env.typ, ToUint8(unit), s)]
  {
    var c1, c2 := RegisterCall(s, unit, env), UnregisterCall(s);
    assert [c1, c2][..1] == [c1];
    var st1 := Run([c1]);
    assert Run([c1, c2]) == Unregister(st1, s);
    hide Run, Unregister, Complete;
    RunComplete([c1]);
    FirstHome(s, unit, env);
    UnregisterOnlyLink(st1, s);
  }

  lemma FirstHome(s: nat, unit: int, env: Env)
    requires unit >= 0 && env.be
    ensures
      var st := Run([RegisterCall(s, unit, env)]);
      && s in st.links && st.Home(s) == MldRec(env.typ, ToUint8(unit), [s], None)
      && st.events == [Event(Add, env.typ, unit, s)]
  {
    hide Run;
    FirstRegistration(s, unit, env);
  }

  lemma UnregisterOnlyLink(st: State, s: nat)
    requires Complete(st) && s in st.links && st.Home(s).links == [s]
    ensures Unregister(st, s).events == st.events + [Event(Del, st.Home(s).typ, st.Home(s).unit, s)]
  {
    hide OrderOk, MembersOk, AddrOk, TakeLink;
    assert Remove([s], s) == [];
    TakeLinkShape(st, s);
  }
}
