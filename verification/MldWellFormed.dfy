/** Well-formed stores, and that every routine keeps a store well formed. */
module MldWellFormed {
  import opened Collections
  import opened MldModel

  /** The lists of MLDs hold every MLD exactly once, in the list of its type. */
  ghost predicate OrderOk(st: State) {
    && (forall t: SsidType :: t in st.order && NoDup(st.order[t]))
    && (forall t, a :: t in st.order && a in st.order[t] ==> a in st.mlds && st.mlds[a].typ == t)
    && (forall a :: a in st.mlds ==> a in st.order[st.mlds[a].typ])
  }

  /** Link lists and the links' back pointers agree, and no list repeats a link. */
  ghost predicate MembersOk(st: State) {
    && (forall a :: a in st.mlds ==> NoDup(st.mlds[a].links))
    && (forall a, s :: a in st.mlds && s in st.mlds[a].links ==> s in st.links && st.links[s].mld == Some(a))
    && (forall s :: s in st.links && st.links[s].mld.Some? ==>
          st.links[s].mld.value in st.mlds && s in st.mlds[st.links[s].mld.value].links)
  }

  /** Addresses are below `next`, no two links share one, and a detached link is reset. */
  ghost predicate AddrOk(st: State) {
    && (forall a :: a in st.mlds ==> a < st.next && (st.mlds[a].prim.Some? ==> st.mlds[a].prim.value < st.next))
    && (forall s :: s in st.links ==> st.links[s].addr < st.next)
    && (forall s, s' :: s in st.links && s' in st.links && st.links[s].addr == st.links[s'].addr ==> s == s')
    && (forall s :: s in st.links && st.links[s].mld.None? ==> st.links[s].id == NO_LINK_ID && !st.links[s].conf)
  }

  ghost predicate WF(st: State) {
    OrderOk(st) && MembersOk(st) && AddrOk(st)
  }

  lemma InitOk()
    ensures WF(INIT)
  {
    forall t: SsidType ensures t in INIT.order && INIT.order[t] == [] {
      match t case UnknownType => case ApType => case EpType =>
    }
  }

  // ---------- stores that differ only in what a predicate does not look at ----------

  lemma OrderFrame(st: State, r: State)
    requires OrderOk(st)
    requires r.order == st.order && r.mlds.Keys == st.mlds.Keys
    requires forall a :: a in st.mlds ==> r.mlds[a].typ == st.mlds[a].typ
    ensures OrderOk(r)
  {
  }

  lemma MembersFrame(st: State, r: State)
    requires MembersOk(st)
    requires r.mlds.Keys == st.mlds.Keys && r.links.Keys == st.links.Keys
    requires forall a :: a in st.mlds ==> r.mlds[a].links == st.mlds[a].links
    requires forall s :: s in st.links ==> r.links[s].mld == st.links[s].mld
    ensures MembersOk(r)
  {
  }

  // ---------- creating and destroying MLDs ----------

  lemma ListedExist(st: State, t: SsidType)
    requires OrderOk(st)
    ensures t in st.order && NoDup(st.Order(t))
    ensures forall a :: a in st.Order(t) ==> a in st.mlds && st.Mld(a).typ == t
  {
    hide NoDup;
  }

  lemma CreateMldOrder(st: State, typ: SsidType, unit: int)
    requires OrderOk(st) && AddrOk(st)
    ensures OrderOk(CreateMld(st, typ, unit))
  {
    hide OrderOk, InsertPos;
    var xs := st.Order(typ);
    var k := InsertPos(st, xs, unit);
    ListedExist(st, typ);
    InsertNoDup(xs, k, st.next);
    var ys := InsertAt(xs, k, st.next);
    hide InsertAt, NoDup;
    ListGrows(st, ys, st.next, MldRec(typ, ToUint8(unit), [], None));
  }

  lemma ListGrows(st: State, ys: seq<nat>, a: nat, m: MldRec)
    requires OrderOk(st) && a !in st.mlds && NoDup(ys)
    requires forall y :: y in ys <==> y in st.Order(m.typ) || y == a
    ensures OrderOk(st.(mlds := st.mlds[a := m], order := st.order[m.typ := ys], next := st.next + 1))
  {
    hide NoDup;
  }

  lemma CreateMldMembers(st: State, typ: SsidType, unit: int)
    requires MembersOk(st) && AddrOk(st)
    ensures MembersOk(CreateMld(st, typ, unit))
  {
  }

  lemma CreateMldAddr(st: State, typ: SsidType, unit: int)
    requires AddrOk(st)
    ensures AddrOk(CreateMld(st, typ, unit))
  {
  }

  lemma CreateMldOk(st: State, typ: SsidType, unit: int)
    requires WF(st)
    ensures WF(CreateMld(st, typ, unit))
  {
    hide OrderOk, MembersOk, AddrOk, CreateMld;
    CreateMldOrder(st, typ, unit);
    CreateMldMembers(st, typ, unit);
    CreateMldAddr(st, typ, unit);
  }

  /** The MLD a link points back to exists and lists the link. */
  lemma HomeExists(st: State, s: nat)
    requires MembersOk(st) && s in st.links
    ensures st.Link(s).mld.Some? ==> st.Link(s).mld.value in st.mlds && s in st.Home(s).links && NoDup(st.Home(s).links)
  {
  }

  /** A listed link exists and points back to the MLD that lists it. */
  lemma ListedLink(st: State, a: nat)
    requires MembersOk(st) && a in st.mlds
    ensures NoDup(st.mlds[a].links)
    ensures forall s :: s in st.mlds[a].links ==> s in st.links && st.links[s].mld == Some(a)
  {
    hide NoDup;
  }

  /** No link points at an MLD without links. */
  lemma EmptyUnreferenced(st: State, a: nat)
    requires MembersOk(st) && a in st.mlds && st.mlds[a].links == []
    ensures forall s :: s in st.links ==> st.links[s].mld != Some(a)
  {
    hide NoDup;
  }

  /** No MLD lists a detached link. */
  lemma DetachedUnlisted(st: State, s: nat)
    requires MembersOk(st) && s in st.links && st.links[s].mld.None?
    ensures forall a :: a in st.mlds ==> s !in st.mlds[a].links
  {
    hide NoDup;
  }

  /** After its removal from the list of its type, no list holds the MLD. */
  lemma RemovedUnlisted(st: State, a: nat, r: State)
    requires OrderOk(st) && a in st.mlds
    requires r.order == st.order[st.mlds[a].typ := Remove(st.Order(st.mlds[a].typ), a)]
    ensures forall t :: a !in r.Order(t)
  {
    RemoveNoDup(st.Order(st.mlds[a].typ), a);
    hide NoDup;
  }

  lemma TargetMldOk(st: State, unit: int, env: Env)
    requires WF(st)
    ensures WF(TargetMld(st, unit, env).0)
    ensures TargetMld(st, unit, env).0.links == st.links && TargetMld(st, unit, env).0.events == st.events
    ensures TargetMld(st, unit, env).1.Some? ==> TargetMld(st, unit, env).1.value in TargetMld(st, unit, env).0.mlds
  {
    hide OrderOk, MembersOk, AddrOk;
    CreateMldOk(st, env.typ, unit);
    ListedExist(st, env.typ);
  }

  lemma DestroyMldOrder(st: State, a: nat, s: nat)
    requires OrderOk(st) && a in st.mlds
    ensures OrderOk(DestroyMld(st, a, s))
  {
    RemoveNoDup(st.Order(st.Mld(a).typ), a);
  }

  lemma DestroyMldMembers(st: State, a: nat, s: nat)
    requires MembersOk(st) && a in st.mlds && st.Mld(a).links == []
    ensures MembersOk(DestroyMld(st, a, s))
  {
  }

  lemma DestroyMldAddr(st: State, a: nat, s: nat)
    requires AddrOk(st)
    ensures AddrOk(DestroyMld(st, a, s))
  {
  }

  lemma DestroyMldOk(st: State, a: nat, s: nat)
    requires WF(st) && a in st.mlds && st.Mld(a).links == []
    ensures WF(DestroyMld(st, a, s))
  {
    hide OrderOk, MembersOk, AddrOk, DestroyMld;
    DestroyMldOrder(st, a, s);
    DestroyMldMembers(st, a, s);
    DestroyMldAddr(st, a, s);
  }

  // ---------- link attributes ----------

  lemma RelinkOk(st: State, xs: seq<nat>, s: nat, flag: bool)
    requires NoDup(xs) && s in xs
    ensures NoDup(Relink(st, xs, s, flag))
    ensures forall y :: y in Relink(st, xs, s, flag) <==> y in xs
  {
    var rest := Remove(xs, s);
    RemoveNoDup(xs, s);
    InsertNoDup(rest, if flag then AfterLastConf(st, rest) else |rest|, s);
  }

  /** Rewriting one link list by a list with the same members. */
  lemma MembersSwap(st: State, a: nat, xs: seq<nat>)
    requires MembersOk(st) && a in st.mlds
    requires NoDup(xs) && forall y :: y in xs <==> y in st.mlds[a].links
    ensures MembersOk(st.WithMld(a, st.mlds[a].(links := xs)))
  {
    hide NoDup;
  }

  lemma SaveConfiguredOk(st: State, s: nat, wanted: bool, env: Env)
    requires WF(st) && s in st.links
    ensures WF(SaveConfigured(st, s, wanted, env))
  {
    hide OrderOk, MembersOk, AddrOk, Relink, Enabled, NoDup;
    var r := SaveConfigured(st, s, wanted, env);
    if r != st {
      var l := st.Link(s);
      HomeExists(st, s);
      RelinkOk(st, st.Home(s).links, s, !l.conf);
      var st1 := st.WithMld(l.mld.value, st.Home(s).(links := Relink(st, st.Home(s).links, s, !l.conf)));
      MembersSwap(st, l.mld.value, Relink(st, st.Home(s).links, s, !l.conf));
      MembersFrame(st1, r);
      OrderFrame(st, r);
      AddrFrame(st, r);
    }
  }

  lemma AddrFrame(st: State, r: State)
    requires AddrOk(st)
    requires r.mlds.Keys <= st.mlds.Keys && r.links.Keys <= st.links.Keys && r.next >= st.next
    requires forall a :: a in r.mlds ==> r.mlds[a].prim in {None, st.mlds[a].prim}
    requires forall s :: s in r.links ==> r.links[s].addr == st.links[s].addr
    requires forall s :: s in r.links && r.links[s].mld.None? ==>
               r.links[s] == st.links[s] || (r.links[s].id == NO_LINK_ID && !r.links[s].conf)
    ensures AddrOk(r)
  {
  }

  lemma ResetLinkIdOk(st: State, s: nat)
    requires WF(st) && s in st.links
    ensures WF(ResetLinkId(st, s))
    ensures ResetLinkId(st, s).links == st.links[s := st.links[s].(id := NO_LINK_ID)]
  {
    hide OrderOk, MembersOk, AddrOk;
    HomeExists(st, s);
    OrderFrame(st, ResetLinkId(st, s));
    MembersFrame(st, ResetLinkId(st, s));
    AddrFrame(st, ResetLinkId(st, s));
  }

  lemma SetLinkIdOk(st: State, s: nat, wanted: int, env: Env)
    requires WF(st) && s in st.links
    ensures WF(SetLinkId(st, s, wanted, env))
  {
    hide OrderOk, MembersOk, AddrOk, ResetLinkId, Relink;
    ResetLinkIdOk(st, s);
    SaveConfiguredOk(st, s, true, env);
    var st1 := if wanted >= 0 then SaveConfigured(st, s, true, env) else st;
    assert s in st1.links && st1.Link(s).mld == st.Link(s).mld;
    hide SaveConfigured;
    if wanted != NO_LINK_ID && Typed(st, s, env) {
      StoreIdOk(st1, s, ToInt16(wanted));
    }
  }

  lemma StoreIdOk(st: State, s: nat, id: int)
    requires WF(st) && s in st.links && st.Link(s).mld.Some?
    ensures WF(st.WithLink(s, st.Link(s).(id := id)))
  {
    hide OrderOk, MembersOk, AddrOk;
    var r := st.WithLink(s, st.Link(s).(id := id));
    OrderFrame(st, r);
    MembersFrame(st, r);
    AddrFrame(st, r);
  }

  lemma SetPrimaryOk(st: State, s: nat, env: Env)
    requires WF(st) && s in st.links
    ensures WF(SetPrimary(st, s, env))
  {
    hide OrderOk, MembersOk;
    HomeExists(st, s);
    OrderFrame(st, SetPrimary(st, s, env));
    MembersFrame(st, SetPrimary(st, s, env));
  }

  // ---------- moving links ----------

  lemma DetachMembers(st: State, s: nat)
    requires MembersOk(st) && s in st.links
    ensures MembersOk(Detach(st, s))
  {
    if st.Link(s).mld.Some? {
      RemoveNoDup(st.Home(s).links, s);
    }
  }

  lemma DetachOk(st: State, s: nat)
    requires WF(st) && s in st.links && st.Link(s).id == NO_LINK_ID
    ensures WF(Detach(st, s))
  {
    hide OrderOk, MembersOk, AddrOk;
    HomeExists(st, s);
    DetachMembers(st, s);
    OrderFrame(st, Detach(st, s));
    AddrFrame(st, Detach(st, s));
  }

  lemma TakeLinkOk(st: State, s: nat)
    requires WF(st) && s in st.links
    ensures WF(TakeLink(st, s))
    ensures TakeLink(st, s).links == st.links[s := LinkRec(st.links[s].addr, None, NO_LINK_ID, false)]
  {
    hide OrderOk, MembersOk, AddrOk, ResetLinkId;
    var st1 := ResetLinkId(st, s);
    ResetLinkIdOk(st, s);
    var st2 := Detach(st1, s);
    DetachOk(st1, s);
    HomeExists(st1, s);
    if st.Link(s).mld.Some? && st2.Mld(st.Link(s).mld.value).links == [] {
      DestroyMldOk(st2, st.Link(s).mld.value, s);
    }
  }

  lemma FreeLinkMembers(st: State, s: nat)
    requires MembersOk(st) && s in st.links && st.Link(s).mld.None?
    ensures MembersOk(FreeLink(st, s))
  {
    hide NoDup;
  }

  lemma DeinitLinkOk(st: State, s: nat)
    requires WF(st) && s in st.links
    ensures WF(DeinitLink(st, s)) && DeinitLink(st, s).links == st.links - {s}
  {
    hide OrderOk, MembersOk, AddrOk, TakeLink;
    TakeLinkOk(st, s);
    FreeLinkMembers(TakeLink(st, s), s);
    OrderFrame(TakeLink(st, s), DeinitLink(st, s));
    AddrFrame(TakeLink(st, s), DeinitLink(st, s));
  }

  lemma NewLinkMembers(st: State, s: nat)
    requires MembersOk(st) && s !in st.links
    ensures MembersOk(NewLink(st, s))
  {
    hide NoDup;
  }

  lemma NewLinkAddr(st: State, s: nat)
    requires AddrOk(st) && s !in st.links
    ensures AddrOk(NewLink(st, s))
  {
  }

  lemma NewLinkOk(st: State, s: nat)
    requires WF(st) && s !in st.links
    ensures WF(NewLink(st, s))
  {
    hide OrderOk, MembersOk, AddrOk;
    NewLinkMembers(st, s);
    NewLinkAddr(st, s);
    OrderFrame(st, NewLink(st, s));
  }

  lemma AttachMembers(st: State, s: nat, a: nat, unit: int)
    requires MembersOk(st) && s in st.links && st.Link(s).mld.None? && a in st.mlds
    ensures MembersOk(Attach(st, s, a, unit))
  {
    var xs := st.Mld(a).links;
    assert xs + [s] == InsertAt(xs, |xs|, s);
    InsertNoDup(xs, |xs|, s);
  }

  lemma AttachOk(st: State, s: nat, a: nat, unit: int)
    requires WF(st) && s in st.links && st.Link(s).mld.None? && a in st.mlds
    ensures WF(Attach(st, s, a, unit))
  {
    hide OrderOk, MembersOk, AddrOk;
    AttachMembers(st, s, a, unit);
    OrderFrame(st, Attach(st, s, a, unit));
    AddrFrame(st, Attach(st, s, a, unit));
  }

  // ---------- entry points ----------

  lemma RegisterOk(st: State, s: nat, unit: int, env: Env)
    requires WF(st)
    ensures WF(Register(st, s, unit, env))
  {
    hide OrderOk, MembersOk, AddrOk, TargetMld, DeinitLink, TakeLink, Attach;
    var (st1, tgt) := TargetMld(st, unit, env);
    TargetMldOk(st, unit, env);
    if s !in st1.links {
      if tgt.Some? {
        NewLinkOk(st1, s);
        AttachOk(NewLink(st1, s), s, tgt.value, unit);
      }
    } else if tgt.None? {
      DeinitLinkOk(st1, s);
    } else if st1.Link(s).mld.Some? && st1.Link(s).mld != tgt {
      TakeLinkOk(st1, s);
      TakeLinkKeeps(st1, s, tgt.value);
      AttachOk(TakeLink(st1, s), s, tgt.value, unit);
    } else if st1.Link(s).mld != tgt {
      DeinitLinkOk(st1, s);
      TakeLinkKeeps(st1, s, tgt.value);
      NewLinkOk(DeinitLink(st1, s), s);
      AttachOk(NewLink(DeinitLink(st1, s), s), s, tgt.value, unit);
    }
  }

  /** Taking a link out leaves every other MLD exactly as it was. */
  lemma TakeLinkKeeps(st: State, s: nat, a: nat)
    requires s in st.links && st.Link(s).mld != Some(a)
    ensures a in st.mlds ==> a in TakeLink(st, s).mlds && TakeLink(st, s).mlds[a] == st.mlds[a]
    ensures a in st.mlds ==> a in DeinitLink(st, s).mlds && DeinitLink(st, s).mlds[a] == st.mlds[a]
  {
  }
}
