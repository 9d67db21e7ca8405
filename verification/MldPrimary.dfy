/** The primary link of an MLD, and the effect of the attribute calls on the link itself. */
module MldPrimary {
  import opened Collections
  import opened MldModel
  import opened MldWellFormed
  import opened MldRuns
  import R = MldRegistry

  // ---------- the answer of wld_mld_getPrimaryLink ----------

  /** The answer is a current member of the caller's own MLD, it is the link the MLD points
      to, and there is no answer only if the MLD points to no member. */
  lemma PrimaryIsMember(calls: seq<Call>, s: nat, env: Env)
    requires s in Run(calls).links
    ensures
      var st := Run(calls);
      match PrimaryOf(st, s, env)
      case Some(p) => p in st.links && st.Link(p).mld == st.Link(s).mld && st.Home(s).prim == Some(st.Link(p).addr)
      case None => !Typed(st, s, env) || forall x :: x in st.Home(s).links ==> Some(st.Link(x).addr) != st.Home(s).prim
  {
    RunComplete(calls);
    hide Run, OrderOk, AddrOk;
    HomeExists(Run(calls), s);
    if Run(calls).Link(s).mld.Some? { ListedLink(Run(calls), Run(calls).Link(s).mld.value); }
  }

  /** All typed links of one MLD get the same answer. */
  lemma PrimaryIsShared(st: State, s: nat, s': nat, env: Env, env': Env)
    requires st.Link(s).mld == st.Link(s').mld && Typed(st, s, env) && Typed(st, s', env')
    ensures PrimaryOf(st, s, env) == PrimaryOf(st, s', env')
  {
  }

  lemma {:induction false} MemberAtFinds(st: State, xs: seq<nat>, p: nat)
    requires WF(st) && p in xs && p in st.links && forall x :: x in xs ==> x in st.links
    ensures MemberAt(st, xs, Some(st.Link(p).addr)) == Some(p)
  {
    hide OrderOk, MembersOk;
  }

  /** Setting the primary link makes it the answer for every typed link of its MLD. */
  lemma SetPrimaryThenAsk(st: State, s: nat, env: Env, x: nat, xenv: Env)
    requires WF(st) && s in st.links && Enabled(st, s, env)
    requires x in st.links && st.Link(x).mld == st.Link(s).mld && xenv.typ == env.typ
    ensures PrimaryOf(SetPrimary(st, s, env), x, xenv) == Some(s)
  {
    var r := SetPrimary(st, s, env);
    HomeExists(st, s);
    ListedLink(st, st.Link(s).mld.value);
    SetPrimaryOk(st, s, env);
    hide OrderOk, MembersOk, AddrOk;
    MemberAtFinds(r, r.Home(s).links, s);
  }

  // ---------- the effect of the attribute calls on the link itself ----------

  /** A typed link gets the id truncated to 16 bits, an untyped one none; an id that is not
      negative also asks for the flag; and a link without id is not primary. */
  lemma SetLinkIdEffect(st: State, s: nat, id: int, env: Env)
    requires WF(st) && s in st.links
    ensures
      var r := SetLinkId(st, s, id, env);
      && r.Link(s).id == (if Typed(st, s, env) then if st.Link(s).id == id then id else ToInt16(id) else NO_LINK_ID)
      && r.Link(s).conf == (if Typed(st, s, env) && id >= 0 then env.up else st.Link(s).conf)
      && (!Typed(st, s, env) || id == NO_LINK_ID ==>
            st.Link(s).id != NO_LINK_ID ==> r.Home(s).prim != Some(st.Link(s).addr))
  {
    hide OrderOk, MembersOk, Relink;
    HomeExists(st, s);
  }

  /** The flag becomes the wanted one if the link is enabled and falls otherwise; the call
      is announced by exactly one UPDATE for the link's MLD when an event is asked for. */
  lemma SetConfiguredEffect(st: State, s: nat, flag: bool, env: Env)
    requires WF(st) && s in st.links && st.Link(s).mld.Some?
    ensures SaveConfigured(st, s, flag, env).Link(s) == st.Link(s).(conf := flag && Enabled(st, s, env))
    ensures SaveConfigured(st, s, flag, env).events == st.events
    ensures SetConfigured(st, s, flag, env) ==
            SaveConfigured(st, s, flag, env).WithEvent(Event(Update, st.Home(s).typ, st.Home(s).unit, s))
    ensures forall a :: a in st.mlds ==> SaveConfigured(st, s, flag, env).Mld(a).prim == st.mlds[a].prim
  {
    hide OrderOk, MembersOk, AddrOk, Relink;
    HomeExists(st, s);
  }

  /** What a registration makes of the SSID's own link: one that stays in its MLD keeps its
      record, one that moves keeps its address and loses its id and its flag, and a new one
      has neither. */
  lemma RegisterEffect(st: State, s: nat, unit: int, env: Env)
    requires Complete(st) && unit >= 0 && env.be
    ensures
      var r, was := Register(st, s, unit, env), FindIn(st, st.Order(env.typ), unit);
      var a := if was.Some? then was.value else st.next;
      && s in r.links && r.Link(s).mld == Some(a)
      && (s in st.links && st.Link(s).mld == Some(a) ==> r.Link(s) == st.Link(s))
      && (s in st.links && st.Link(s).mld != Some(a) ==>
            r.Link(s) == LinkRec(st.Link(s).addr, Some(a), NO_LINK_ID, false))
      && (s !in st.links ==> r.Link(s).id == NO_LINK_ID && !r.Link(s).conf && r.Link(s).addr >= st.next)
  {
    hide OrderOk, MembersOk, AddrOk, FindIn, Remove, CreateMld, TakeLink;
    var (st1, tgt) := TargetMld(st, unit, env);
    TargetMldOk(st, unit, env);
    CreatedLinks(st, env.typ, unit);
    if s in st.links { TakenLink(st1, s); HomeExists(st1, s); }
  }

  lemma CreatedLinks(st: State, typ: SsidType, unit: int)
    ensures CreateMld(st, typ, unit).links == st.links && CreateMld(st, typ, unit).next == st.next + 1
  {
  }

  lemma TakenLink(st: State, s: nat)
    requires WF(st) && s in st.links && st.Link(s).mld.Some?
    ensures s in TakeLink(st, s).links
    ensures TakeLink(st, s).Link(s) == LinkRec(st.Link(s).addr, None, NO_LINK_ID, false)
  {
    hide OrderOk, MembersOk, AddrOk, Remove;
    HomeExists(st, s);
  }

  // ---------- the stored primary link ----------

  /** The member an MLD's stored primary link points to; `withId` asks for one that has a link id. */
  ghost predicate IsPrim(st: State, a: nat, s: nat, withId: bool) {
    s in st.Mld(a).links && st.Mld(a).prim == Some(st.Link(s).addr) && (withId ==> st.Link(s).id != NO_LINK_ID)
  }

  /** The stored primary link is none, or a member (with a link id). */
  ghost predicate PrimOk(st: State, a: nat, withId: bool) {
    st.Mld(a).prim.Some? ==> exists s :: IsPrim(st, a, s, withId)
  }

  ghost predicate PrimsOk(st: State, withId: bool) {
    forall a :: a in st.mlds ==> PrimOk(st, a, withId)
  }

  /** The call takes the SSID's link out of the MLD it is in. */
  predicate Leaves(st: State, c: Call) {
    c.ssid in st.links &&
    match c
    case RegisterCall(s, unit, env) => unit < 0 || !env.be || FindIn(st, st.Order(env.typ), unit) != st.Link(s).mld
    case UnregisterCall(_) => true
    case _ => false
  }

  /** The link is the primary one, has no id, and is not alone in its MLD. */
  predicate StrandsPrimary(st: State, s: nat) {
    && st.Link(s).id == NO_LINK_ID
    && st.Home(s).prim == Some(st.Link(s).addr)
    && |st.Home(s).links| > 1
  }

  /** The call neither makes a link without id primary nor gives the primary link an id that
      the 16-bit field turns into no id. */
  predicate Careful(st: State, c: Call) {
    match c
    case SetPrimaryCall(s, env) => s in st.links && Enabled(st, s, env) ==> st.Link(s).id != NO_LINK_ID
    case SetLinkIdCall(s, id, env) =>
      s in st.links && Typed(st, s, env) && id != NO_LINK_ID && st.Home(s).prim == Some(st.Link(s).addr) ==>
        ToInt16(id) != NO_LINK_ID
    case _ => true
  }

  // ---------- one MLD at a time ----------

  lemma PrimFrame(st: State, r: State, a: nat, withId: bool)
    requires r.Mld(a).prim == st.Mld(a).prim
    requires forall x :: x in r.Mld(a).links <==> x in st.Mld(a).links
    requires forall x :: x in st.Mld(a).links ==>
      r.Link(x).addr == st.Link(x).addr && (withId ==> r.Link(x).id == st.Link(x).id)
    ensures PrimOk(r, a, withId) <==> PrimOk(st, a, withId)
  {
    if PrimOk(st, a, withId) && st.Mld(a).prim.Some? {
      var x :| IsPrim(st, a, x, withId);
      assert IsPrim(r, a, x, withId);
    }
    if PrimOk(r, a, withId) && r.Mld(a).prim.Some? {
      var x :| IsPrim(r, a, x, withId);
      assert IsPrim(st, a, x, withId);
    }
  }

  /** No two members share an address. */
  lemma OnlyPrim(st: State, a: nat, s: nat, x: nat, withId: bool)
    requires WF(st) && a in st.mlds && s in st.mlds[a].links && st.mlds[a].prim == Some(st.Link(s).addr)
    requires IsPrim(st, a, x, withId)
    ensures x == s
  {
    hide OrderOk;
    ListedLink(st, a);
    hide MembersOk;
  }

  lemma AttributePrims(st: State, r: State, withId: bool)
    requires WF(st) && r.mlds.Keys == st.mlds.Keys && r.links.Keys == st.links.Keys
    requires forall a :: a in st.mlds ==> r.mlds[a].prim == st.mlds[a].prim
    requires forall a, x :: a in st.mlds ==> (x in r.mlds[a].links <==> x in st.mlds[a].links)
    requires forall x :: x in st.links ==> r.links[x].addr == st.links[x].addr && r.links[x].id == st.links[x].id
    ensures PrimsOk(r, withId) <==> PrimsOk(st, withId)
  {
    hide OrderOk, MembersOk, AddrOk, PrimOk;
    forall a | a in st.mlds ensures PrimOk(r, a, withId) <==> PrimOk(st, a, withId) {
      ListedLink(st, a);
      PrimFrame(st, r, a, withId);
    }
  }

  lemma SaveConfiguredPrims(st: State, s: nat, flag: bool, env: Env, withId: bool)
    requires WF(st) && s in st.links
    ensures PrimsOk(SaveConfigured(st, s, flag, env), withId) <==> PrimsOk(st, withId)
    ensures PrimsOk(SetConfigured(st, s, flag, env), withId) <==> PrimsOk(st, withId)
  {
    hide OrderOk, MembersOk, AddrOk, Relink, PrimsOk;
    HomeExists(st, s);
    if st.Link(s).mld.Some? { RelinkOk(st, st.Home(s).links, s, !st.Link(s).conf); }
    AttributePrims(st, SaveConfigured(st, s, flag, env), withId);
    AttributePrims(st, SetConfigured(st, s, flag, env), withId);
  }

  /** Only the MLD of `s` may change, and only in its primary link or in the record of `s`. */
  lemma HomePrims(st: State, r: State, s: nat, withId: bool)
    requires WF(st) && s in st.links && st.Link(s).mld.Some? && PrimsOk(st, withId)
    requires r.mlds.Keys == st.mlds.Keys
    requires forall a :: a in st.mlds ==> r.mlds[a].links == st.mlds[a].links
    requires forall a :: a in st.mlds && Some(a) != st.Link(s).mld ==> r.mlds[a].prim == st.mlds[a].prim
    requires forall x :: x in st.links ==> r.Link(x).addr == st.Link(x).addr
    requires forall x :: x in st.links && x != s ==> r.Link(x).id == st.Link(x).id
    ensures PrimsOk(r, withId) <==> PrimOk(r, st.Link(s).mld.value, withId)
  {
    hide OrderOk, MembersOk, AddrOk, PrimOk;
    HomeExists(st, s);
    forall a | a in st.mlds && Some(a) != st.Link(s).mld ensures PrimOk(r, a, withId) {
      ListedLink(st, a);
      PrimFrame(st, r, a, withId);
    }
  }

  lemma ResetLinkIdPrims(st: State, s: nat, withId: bool)
    requires WF(st) && s in st.links && st.Link(s).mld.Some? && PrimsOk(st, withId)
    ensures PrimsOk(ResetLinkId(st, s), withId)
  {
    hide OrderOk, MembersOk, AddrOk, PrimOk, PrimsOk;
    var r, a := ResetLinkId(st, s), st.Link(s).mld.value;
    HomeExists(st, s);
    HomePrims(st, r, s, withId);
    assert PrimOk(r, a, withId) by {
      if st.Home(s).prim == Some(st.Link(s).addr) {
        if st.Link(s).id != NO_LINK_ID { NoPrimOk(r, a, withId); } else { PrimsOkAt(st, a, withId); }
      } else {
        ResetOtherPrim(st, s, withId);
      }
    }
  }

  lemma NoPrimOk(st: State, a: nat, withId: bool)
    requires st.Mld(a).prim.None?
    ensures PrimOk(st, a, withId)
  {
  }

  lemma PrimsOkAt(st: State, a: nat, withId: bool)
    requires PrimsOk(st, withId) && a in st.mlds
    ensures PrimOk(st, a, withId)
  {
  }

  lemma ResetOtherPrim(st: State, s: nat, withId: bool)
    requires WF(st) && s in st.links && st.Link(s).mld.Some? && PrimsOk(st, withId)
    requires st.Home(s).prim != Some(st.Link(s).addr)
    ensures PrimOk(ResetLinkId(st, s), st.Link(s).mld.value, withId)
  {
    hide OrderOk, MembersOk, AddrOk;
    var r, a := ResetLinkId(st, s), st.Link(s).mld.value;
    HomeExists(st, s);
    assert PrimOk(st, a, withId);
    if st.Mld(a).prim.Some? {
      var x :| IsPrim(st, a, x, withId);
      assert IsPrim(r, a, x, withId);
    }
  }

  lemma SetPrimaryPrims(st: State, s: nat, env: Env, withId: bool)
    requires WF(st) && s in st.links && st.Link(s).mld.Some? && PrimsOk(st, withId)
    ensures PrimsOk(SetPrimary(st, s, env), withId) <==> !withId || Careful(st, SetPrimaryCall(s, env))
  {
    hide OrderOk, MembersOk, AddrOk, PrimOk, PrimsOk;
    var r, a := SetPrimary(st, s, env), st.Link(s).mld.value;
    HomeExists(st, s);
    if Enabled(st, s, env) {
      HomePrims(st, r, s, withId);
      SetPrimaryOk(st, s, env);
      OwnPrim(r, a, s, withId);
    }
  }

  lemma OwnPrim(st: State, a: nat, s: nat, withId: bool)
    requires WF(st) && a in st.mlds && s in st.mlds[a].links && st.mlds[a].prim == Some(st.Link(s).addr)
    ensures PrimOk(st, a, withId) <==> !withId || st.Link(s).id != NO_LINK_ID
  {
    hide OrderOk, MembersOk, AddrOk;
    if PrimOk(st, a, withId) {
      var x :| IsPrim(st, a, x, withId);
      OnlyPrim(st, a, s, x, withId);
    } else {
      assert !IsPrim(st, a, s, withId);
    }
  }

  lemma SetLinkIdPrims(st: State, s: nat, id: int, env: Env, withId: bool)
    requires WF(st) && s in st.links && st.Link(s).mld.Some? && PrimsOk(st, withId)
    requires -32768 <= st.Link(s).id < 32768
    ensures PrimsOk(SetLinkId(st, s, id, env), withId) <==> !withId || Careful(st, SetLinkIdCall(s, id, env))
  {
    hide OrderOk, MembersOk, AddrOk, PrimOk, PrimsOk, SaveConfigured, ResetLinkId;
    ResetLinkIdPrims(st, s, withId);
    if id != NO_LINK_ID && Typed(st, s, env) {
      SaveConfiguredPrims(st, s, true, env, withId);
      SaveConfiguredOk(st, s, true, env);
      SaveConfiguredComplete(st, s, true, env);
      SetConfiguredEffect(st, s, true, env);
      var st1 := if id >= 0 then SaveConfigured(st, s, true, env) else st;
      HomeExists(st, s);
      HomeExists(st1, s);
      StoreIdPrims(st1, s, id, withId);
    }
  }

  /** Storing an id spoils the primary link exactly when it is this link and the id is lost. */
  lemma StoreIdPrims(st: State, s: nat, id: int, withId: bool)
    requires WF(st) && s in st.links && st.Link(s).mld.Some? && PrimsOk(st, withId)
    requires -32768 <= st.Link(s).id < 32768 && id != NO_LINK_ID
    ensures
      var r := if st.Link(s).id == id then st else st.WithLink(s, st.Link(s).(id := ToInt16(id)));
      PrimsOk(r, withId) <==> !withId || st.Home(s).prim != Some(st.Link(s).addr) || ToInt16(id) != NO_LINK_ID
  {
    hide OrderOk, MembersOk, AddrOk, PrimOk, PrimsOk;
    var r, a := st.WithLink(s, st.Link(s).(id := ToInt16(id))), st.Link(s).mld.value;
    if st.Link(s).id != id {
      HomeExists(st, s);
      HomePrims(st, r, s, withId);
      if st.Home(s).prim == Some(st.Link(s).addr) {
        OrderFrame(st, r);
        MembersFrame(st, r);
        AddrFrame(st, r);
        OwnPrim(r, a, s, withId);
      } else {
        StoreIdOther(st, s, id, withId);
      }
    }
  }

  lemma StoreIdOther(st: State, s: nat, id: int, withId: bool)
    requires s in st.links && st.Link(s).mld.Some? && st.Link(s).mld.value in st.mlds && PrimsOk(st, withId)
    requires st.Home(s).prim != Some(st.Link(s).addr)
    ensures PrimOk(st.WithLink(s, st.Link(s).(id := ToInt16(id))), st.Link(s).mld.value, withId)
  {
    var r, a := st.WithLink(s, st.Link(s).(id := ToInt16(id))), st.Link(s).mld.value;
    assert PrimOk(st, a, withId);
    if st.Mld(a).prim.Some? {
      var x :| IsPrim(st, a, x, withId);
      assert IsPrim(r, a, x, withId);
    }
  }

  // ---------- moving links ----------

  lemma TargetMldPrims(st: State, unit: int, env: Env, withId: bool)
    requires WF(st) && PrimsOk(st, withId)
    ensures PrimsOk(TargetMld(st, unit, env).0, withId)
  {
    hide OrderOk, MembersOk, PrimOk, InsertAt, InsertPos, FindIn;
    var r := TargetMld(st, unit, env).0;
    forall a | a in r.mlds ensures PrimOk(r, a, withId) {
      if a in st.mlds {
        PrimFrame(st, r, a, withId);
      } else {
        NoPrimOk(r, a, withId);
      }
    }
  }

  /** Detaching keeps every primary link except a primary link that is itself detached. */
  lemma DetachPrims(st: State, s: nat, withId: bool)
    requires WF(st) && s in st.links && st.Link(s).mld.Some? && PrimsOk(st, withId)
    ensures forall a :: a in st.mlds && Some(a) != st.Link(s).mld ==> PrimOk(Detach(st, s), a, withId)
    ensures PrimOk(Detach(st, s), st.Link(s).mld.value, withId) <==> st.Home(s).prim != Some(st.Link(s).addr)
  {
    hide OrderOk, MembersOk, AddrOk, PrimOk, Remove;
    var r, h := Detach(st, s), st.Link(s).mld.value;
    HomeExists(st, s);
    ListedLink(st, h);
    RemoveNoDup(st.Home(s).links, s);
    forall a | a in st.mlds && a != h ensures PrimOk(r, a, withId) {
      ListedLink(st, a);
      PrimFrame(st, r, a, withId);
    }
    DetachHomePrim(st, s, withId);
  }

  lemma DetachHomePrim(st: State, s: nat, withId: bool)
    requires WF(st) && s in st.links && st.Link(s).mld.Some? && PrimsOk(st, withId)
    ensures PrimOk(Detach(st, s), st.Link(s).mld.value, withId) <==> st.Home(s).prim != Some(st.Link(s).addr)
  {
    hide OrderOk, MembersOk, AddrOk, Remove;
    var r, h := Detach(st, s), st.Link(s).mld.value;
    HomeExists(st, s);
    ListedLink(st, h);
    RemoveNoDup(st.Home(s).links, s);
    assert PrimOk(st, h, withId);
    if st.Home(s).prim == Some(st.Link(s).addr) {
      if PrimOk(r, h, withId) {
        var x :| IsPrim(r, h, x, withId);
        assert x != s && IsPrim(st, h, x, false);
        OnlyPrim(st, h, s, x, false);
      }
    } else if st.Home(s).prim.Some? {
      var x :| IsPrim(st, h, x, withId);
      assert IsPrim(r, h, x, withId);
    }
  }

  lemma TakeLinkPrims(st: State, s: nat, withId: bool)
    requires WF(st) && s in st.links && st.Link(s).mld.Some? && PrimsOk(st, withId)
    ensures PrimsOk(TakeLink(st, s), withId) <==> !StrandsPrimary(st, s)
    ensures PrimsOk(DeinitLink(st, s), withId) <==> !StrandsPrimary(st, s)
    ensures withId ==> !StrandsPrimary(st, s)
  {
    hide OrderOk, MembersOk, AddrOk, PrimOk, PrimsOk, Remove, ResetLinkId;
    var h := st.Link(s).mld.value;
    var st1 := ResetLinkId(st, s);
    ResetLinkIdOk(st, s);
    ResetLinkIdPrims(st, s, withId);
    HomeExists(st, s);
    HomeExists(st1, s);
    var r := Detach(st1, s);
    DetachPrims(st1, s, withId);
    assert withId ==> !StrandsPrimary(st, s) by {
      if withId && StrandsPrimary(st, s) {
        PrimsOkAt(st, h, withId);
        OwnPrim(st, h, s, withId);
      }
    }
    ResetPrimGone(st, s);
    TakeLinkRest(st, s, withId);
  }

  lemma ResetPrimGone(st: State, s: nat)
    requires WF(st) && s in st.links && st.Link(s).mld.Some?
    ensures ResetLinkId(st, s).Home(s).prim == Some(st.Link(s).addr) <==>
            st.Link(s).id == NO_LINK_ID && st.Home(s).prim == Some(st.Link(s).addr)
    ensures ResetLinkId(st, s).Home(s).links == st.Home(s).links
  {
    hide OrderOk, MembersOk, AddrOk;
    HomeExists(st, s);
  }

  lemma TakeLinkRest(st: State, s: nat, withId: bool)
    requires WF(st) && s in st.links && st.Link(s).mld.Some?
    requires
      var st1 := ResetLinkId(st, s);
      && WF(st1) && PrimsOk(st1, withId)
    ensures PrimsOk(TakeLink(st, s), withId) <==> !StrandsPrimary(st, s)
    ensures PrimsOk(DeinitLink(st, s), withId) <==> !StrandsPrimary(st, s)
  {
    hide OrderOk, MembersOk, AddrOk, PrimOk, ResetLinkId, Remove;
    var h, st1 := st.Link(s).mld.value, ResetLinkId(st, s);
    ResetLinkIdOk(st, s);
    ResetLinkIdComplete(st, s);
    ResetPrimGone(st, s);
    HomeExists(st, s);
    HomeExists(st1, s);
    DetachPrims(st1, s, withId);
    var st2, r, f := Detach(st1, s), TakeLink(st, s), DeinitLink(st, s);
    RemoveNoDup(st.Home(s).links, s);
    DetachOk(st1, s);
    var gone := st2.Mld(h).links == [];
    assert gone <==> |st.Home(s).links| == 1;
    forall a | a in r.mlds
      ensures PrimOk(r, a, withId) <==> PrimOk(st2, a, withId)
      ensures PrimOk(f, a, withId) <==> PrimOk(r, a, withId) {
      ListedLink(st2, a);
      PrimFrame(st2, r, a, withId);
      PrimFrame(r, f, a, withId);
    }
    assert f.mlds == r.mlds;
    assert r.mlds.Keys == if gone then st2.mlds.Keys - {h} else st2.mlds.Keys;
  }

  lemma AttachPrims(st: State, s: nat, a: nat, unit: int, withId: bool)
    requires WF(st) && s in st.links && st.Link(s).mld.None? && a in st.mlds && PrimOk(st, a, withId)
    ensures PrimsOk(Attach(st, s, a, unit), withId) <==> PrimsOk(st, withId)
  {
    hide OrderOk, MembersOk, AddrOk;
    var r := Attach(st, s, a, unit);
    if st.Mld(a).prim.Some? {
      var x :| IsPrim(st, a, x, withId);
      assert IsPrim(r, a, x, withId);
    }
    hide PrimOk;
    forall b | b in st.mlds && b != a ensures PrimOk(r, b, withId) <==> PrimOk(st, b, withId) {
      ListedLink(st, b);
      PrimFrame(st, r, b, withId);
    }
    assert r.mlds.Keys == st.mlds.Keys;
  }

  lemma NewLinkPrims(st: State, s: nat, withId: bool)
    requires WF(st) && s !in st.links
    ensures PrimsOk(NewLink(st, s), withId) <==> PrimsOk(st, withId)
  {
    hide OrderOk, MembersOk, AddrOk, PrimOk;
    forall a | a in st.mlds ensures PrimOk(NewLink(st, s), a, withId) <==> PrimOk(st, a, withId) {
      ListedLink(st, a);
      PrimFrame(st, NewLink(st, s), a, withId);
    }
  }

  lemma RegisterPrims(st: State, s: nat, unit: int, env: Env, withId: bool)
    requires Complete(st) && PrimsOk(st, withId)
    ensures PrimsOk(Register(st, s, unit, env), withId) <==>
      !(Leaves(st, RegisterCall(s, unit, env)) && StrandsPrimary(st, s))
    ensures withId ==> s in st.links ==> !StrandsPrimary(st, s)
  {
    hide OrderOk, MembersOk, AddrOk, PrimOk, PrimsOk, DeinitLink, TakeLink, Attach, InsertAt, InsertPos;
    if s in st.links { TakeLinkPrims(st, s, withId); }
    var (st1, tgt) := TargetMld(st, unit, env);
    TargetMldOk(st, unit, env);
    TargetMldPrims(st, unit, env, withId);
    if s in st.links { HomeExists(st, s); NextUnused(st, s); }
    hide TargetMld;
    if s in st1.links {
      TakeLinkPrims(st1, s, withId);
      if tgt.Some? && st1.Link(s).mld != tgt {
        TakeLinkOk(st1, s);
        TakeLinkKeeps(st1, s, tgt.value);
        PrimsOkAt(st1, tgt.value, withId);
        ListedLink(st1, tgt.value);
        PrimFrame(st1, TakeLink(st1, s), tgt.value, withId);
        AttachPrims(TakeLink(st1, s), s, tgt.value, unit, withId);
      }
    } else if tgt.Some? {
      NewLinkOk(st1, s);
      NewLinkPrims(st1, s, withId);
      PrimsOkAt(NewLink(st1, s), tgt.value, withId);
      AttachPrims(NewLink(st1, s), s, tgt.value, unit, withId);
    }
  }

  lemma NextUnused(st: State, s: nat)
    requires WF(st) && s in st.links
    ensures st.Link(s).mld != Some(st.next)
  {
  }

  // ---------- main results ----------

  /** If every stored primary link is a member before a call, it is after it, with one
      exception: the call takes a link out of its MLD that is primary, has no id and leaves
      other members behind; then the MLD keeps pointing to a link it no longer holds. */
  lemma PrimariesStayMembersExactly(calls: seq<Call>, c: Call)
    requires PrimsOk(Run(calls), false)
    ensures PrimsOk(Run(calls + [c]), false) <==>
            !(Leaves(Run(calls), c) && StrandsPrimary(Run(calls), c.ssid))
  {
    RunComplete(calls);
    RunIds(calls, c.ssid);
    assert (calls + [c])[..|calls|] == calls;
    assert Run(calls + [c]) == Step(Run(calls), c);
    hide Run;
    StepPrims(Run(calls), c, false);
  }

  /** If every stored primary link is a member with an id before a call, it is after it
      exactly when the call is careful: moves, removals and id resets never spoil it. */
  lemma PrimariesKeepIdsExactly(calls: seq<Call>, c: Call)
    requires PrimsOk(Run(calls), true)
    ensures PrimsOk(Run(calls + [c]), true) <==> Careful(Run(calls), c)
  {
    RunComplete(calls);
    RunIds(calls, c.ssid);
    assert (calls + [c])[..|calls|] == calls;
    assert Run(calls + [c]) == Step(Run(calls), c);
    hide Run;
    StepPrims(Run(calls), c, true);
  }

  lemma StepPrims(st: State, c: Call, withId: bool)
    requires Complete(st) && PrimsOk(st, withId)
    requires -32768 <= st.Link(c.ssid).id < 32768
    ensures withId ==> (PrimsOk(Step(st, c), withId) <==> Careful(st, c))
    ensures !withId ==> (PrimsOk(Step(st, c), withId) <==> !(Leaves(st, c) && StrandsPrimary(st, c.ssid)))
  {
    hide OrderOk, MembersOk, AddrOk, PrimsOk, Register, DeinitLink, SetLinkId, SetPrimary, SaveConfigured,
      SetConfigured, StrandsPrimary;
    match c
    case RegisterCall(s, unit, env) => RegisterPrims(st, s, unit, env, withId);
    case UnregisterCall(s) => if s in st.links { TakeLinkPrims(st, s, withId); }
    case SetLinkIdCall(s, id, env) => if s in st.links { SetLinkIdPrims(st, s, id, env, withId); }
    case SetPrimaryCall(s, env) => if s in st.links { SetPrimaryPrims(st, s, env, withId); }
    case SaveConfiguredCall(s, flag, env) => if s in st.links { SaveConfiguredPrims(st, s, flag, env, withId); }
    case SetConfiguredCall(s, flag, env) => if s in st.links { SaveConfiguredPrims(st, s, flag, env, withId); }
  }

  /** Stored link ids are 16-bit values. */
  lemma {:induction false} RunIds(calls: seq<Call>, s: nat)
    ensures -32768 <= Run(calls).Link(s).id < 32768
  {
    if calls != [] {
      var prev, c := calls[..|calls| - 1], calls[|calls| - 1];
      RunIds(prev, s);
      RunComplete(prev);
      assert calls == prev + [c];
      assert Run(calls) == Step(Run(prev), c);
      hide Run, Step, Complete, MldKept;
      if c.ssid != s { CallMovesOnlyItsLink(prev, c); } else { StepIds(Run(prev), c); }
    }
  }

  lemma StepIds(st: State, c: Call)
    requires Complete(st) && -32768 <= st.Link(c.ssid).id < 32768
    ensures -32768 <= Step(st, c).Link(c.ssid).id < 32768
  {
    hide OrderOk, MembersOk, AddrOk, Relink, TakeLink, DeinitLink, TargetMld;
    match c
    case RegisterCall(s, unit, env) =>
      TargetMldOk(st, unit, env);
      var st1 := TargetMld(st, unit, env).0;
      if s in st1.links { TakeLinkOk(st1, s); DeinitLinkOk(st1, s); }
    case UnregisterCall(s) => if s in st.links { DeinitLinkOk(st, s); }
    case SetLinkIdCall(s, id, env) => if s in st.links { SetLinkIdEffect(st, s, id, env); }
    case SetPrimaryCall(s, env) => if s in st.links { HomeExists(st, s); }
    case SaveConfiguredCall(s, flag, env) => if s in st.links { HomeExists(st, s); }
    case SetConfiguredCall(s, flag, env) => if s in st.links { HomeExists(st, s); }
  }

  /** Every call of the run is careful in the store it meets. */
  ghost predicate CarefulRun(calls: seq<Call>) {
    calls == [] || (CarefulRun(calls[..|calls| - 1]) && Careful(Run(calls[..|calls| - 1]), calls[|calls| - 1]))
  }

  /** In a careful run the stored primary link of every MLD is always none or a member with an id. */
  lemma {:induction false} CarefulRunsKeepPrimaries(calls: seq<Call>)
    requires CarefulRun(calls)
    ensures PrimsOk(Run(calls), true)
  {
    if calls != [] {
      var prev, c := calls[..|calls| - 1], calls[|calls| - 1];
      CarefulRunsKeepPrimaries(prev);
      assert calls == prev + [c];
      hide PrimsOk, Run;
      PrimariesKeepIdsExactly(prev, c);
    }
  }

  // ---------- what a call does to every primary link ----------

  /** The SSID's link is the primary one of the MLD, and has an id. */
  predicate IsPrimary(st: State, s: nat, a: nat) {
    && s in st.links && st.Link(s).mld == Some(a)
    && st.Mld(a).prim == Some(st.Link(s).addr) && st.Link(s).id != NO_LINK_ID
  }

  /** The call takes the SSID's id back: it asks for none, or the link is not of its SSID's type. */
  predicate ResetsId(st: State, c: Call) {
    c.SetLinkIdCall? && c.ssid in st.links && (c.id == NO_LINK_ID || !Typed(st, c.ssid, c.env))
  }

  /** The call makes the SSID's link the primary one of the MLD. */
  predicate MakesPrimary(st: State, c: Call, a: nat) {
    c.SetPrimaryCall? && c.ssid in st.links && Enabled(st, c.ssid, c.env) && st.Link(c.ssid).mld == Some(a)
  }

  /** The primary link an MLD points to after a call, from the store before it. */
  function PrimAfter(st: State, c: Call, a: nat): Option<nat> {
    if MakesPrimary(st, c, a) then Some(st.Link(c.ssid).addr)
    else if IsPrimary(st, c.ssid, a) && (Leaves(st, c) || ResetsId(st, c)) then None
    else st.Mld(a).prim
  }

  ghost predicate SamePrims(st: State, r: State) {
    r.mlds.Keys == st.mlds.Keys && forall a :: a in st.mlds ==> r.Mld(a).prim == st.Mld(a).prim
  }

  lemma TakeLinkPrim(st: State, s: nat, a: nat)
    requires WF(st) && s in st.links && a in st.mlds
    ensures
      var prim := if IsPrimary(st, s, a) then None else st.Mld(a).prim;
      && (a in TakeLink(st, s).mlds ==> TakeLink(st, s).Mld(a).prim == prim)
      && (a in DeinitLink(st, s).mlds ==> DeinitLink(st, s).Mld(a).prim == prim)
  {
    hide OrderOk, MembersOk, AddrOk, Remove;
    HomeExists(st, s);
  }

  lemma SaveConfiguredSamePrims(st: State, s: nat, flag: bool, env: Env)
    requires Complete(st) && s in st.links
    ensures SamePrims(st, SaveConfigured(st, s, flag, env)) && SamePrims(st, SetConfigured(st, s, flag, env))
  {
    hide OrderOk, MembersOk, AddrOk, SaveConfigured;
    HomeExists(st, s);
    SaveConfiguredComplete(st, s, flag, env);
    SetConfiguredEffect(st, s, flag, env);
  }

  lemma AttachSamePrims(st: State, s: nat, a: nat, unit: int)
    requires a in st.mlds
    ensures SamePrims(st, Attach(st, s, a, unit)) && SamePrims(st, Attach(NewLink(st, s), s, a, unit))
  {
  }

  lemma TargetMldPrim(st: State, unit: int, env: Env, a: nat)
    requires WF(st) && a in TargetMld(st, unit, env).0.mlds
    ensures
      var st1 := TargetMld(st, unit, env).0;
      st1.links == st.links && st1.Mld(a).prim == if a in st.mlds then st.Mld(a).prim else None
  {
    hide OrderOk, MembersOk, FindIn, InsertAt, InsertPos;
  }

  lemma RegisterPrim(st: State, s: nat, unit: int, env: Env, a: nat)
    requires Complete(st) && a in Register(st, s, unit, env).mlds
    ensures Register(st, s, unit, env).Mld(a).prim ==
      if a in st.mlds then PrimAfter(st, RegisterCall(s, unit, env), a) else None
  {
    hide OrderOk, MembersOk, AddrOk, TargetMld, TakeLink, DeinitLink, Attach, NewLink;
    var (st1, tgt) := TargetMld(st, unit, env);
    TargetMldOk(st, unit, env);
    RegisterMlds(st, s, unit, env, a);
    TargetMldPrim(st, unit, env, a);
    if s in st.links {
      TargetLeaves(st, s, unit, env);
      HomeExists(st, s);
      TakeLinkPrim(st1, s, a);
      if tgt.Some? && st1.Link(s).mld != tgt {
        TakeLinkKeeps(st1, s, tgt.value);
        AttachSamePrims(TakeLink(st1, s), s, tgt.value, unit);
      }
    } else if tgt.Some? {
      AttachSamePrims(st1, s, tgt.value, unit);
    }
  }

  /** A registration makes no MLD but its target. */
  lemma RegisterMlds(st: State, s: nat, unit: int, env: Env, a: nat)
    requires Complete(st) && a in Register(st, s, unit, env).mlds
    ensures a in TargetMld(st, unit, env).0.mlds
  {
    hide OrderOk, MembersOk, AddrOk, TargetMld, TakeLink, DeinitLink, Attach, NewLink;
    TargetMldOk(st, unit, env);
    var (st1, tgt) := TargetMld(st, unit, env);
    if s in st1.links {
      TakenMlds(st1, s);
      if tgt.Some? && st1.Link(s).mld != tgt {
        TakeLinkKeeps(st1, s, tgt.value);
        AttachSamePrims(TakeLink(st1, s), s, tgt.value, unit);
      }
    } else if tgt.Some? {
      AttachSamePrims(st1, s, tgt.value, unit);
    }
  }

  lemma TakenMlds(st: State, s: nat)
    requires WF(st) && s in st.links
    ensures TakeLink(st, s).mlds.Keys <= st.mlds.Keys && DeinitLink(st, s).mlds.Keys <= st.mlds.Keys
  {
    hide OrderOk, MembersOk, AddrOk, Remove;
    HomeExists(st, s);
  }

  lemma TargetLeaves(st: State, s: nat, unit: int, env: Env)
    requires Complete(st) && s in st.links
    ensures
      var tgt := TargetMld(st, unit, env).1;
      Leaves(st, RegisterCall(s, unit, env)) <==> tgt.None? || st.Link(s).mld != tgt
  {
    HomeExists(st, s);
    NextUnused(st, s);
    hide OrderOk, MembersOk, AddrOk, FindIn, CreateMld;
  }

  /** After a call an MLD that was there before points to the link made primary, if the call
      makes one of its members primary; to none, if the call resets the id of its primary link
      or takes that link away, and the link has an id; and to what it pointed to otherwise. A
      new MLD points to none. */
  lemma StepPrimExactly(st: State, c: Call, a: nat)
    requires Complete(st) && a in Step(st, c).mlds
    ensures Step(st, c).Mld(a).prim == if a in st.mlds then PrimAfter(st, c, a) else None
  {
    hide OrderOk, MembersOk, AddrOk, Register, DeinitLink, SaveConfigured, SetConfigured, ResetLinkId;
    match c
    case RegisterCall(s, unit, env) => RegisterPrim(st, s, unit, env, a);
    case UnregisterCall(s) => if s in st.links { UnregisterPrim(st, s, a); }
    case SetLinkIdCall(s, id, env) => if s in st.links { SetLinkIdPrim(st, s, id, env, a); }
    case SetPrimaryCall(s, env) => if s in st.links { HomeExists(st, s); }
    case SaveConfiguredCall(s, flag, env) => if s in st.links { SaveConfiguredSamePrims(st, s, flag, env); }
    case SetConfiguredCall(s, flag, env) => if s in st.links { SaveConfiguredSamePrims(st, s, flag, env); }
  }

  lemma UnregisterPrim(st: State, s: nat, a: nat)
    requires Complete(st) && s in st.links && a in DeinitLink(st, s).mlds
    ensures a in st.mlds && DeinitLink(st, s).Mld(a).prim == PrimAfter(st, UnregisterCall(s), a)
  {
    hide OrderOk, MembersOk, AddrOk, Remove;
    HomeExists(st, s);
    TakeLinkPrim(st, s, a);
  }

  lemma SetLinkIdPrim(st: State, s: nat, id: int, env: Env, a: nat)
    requires Complete(st) && s in st.links && a in SetLinkId(st, s, id, env).mlds
    ensures a in st.mlds && SetLinkId(st, s, id, env).Mld(a).prim == PrimAfter(st, SetLinkIdCall(s, id, env), a)
  {
    hide OrderOk, MembersOk, AddrOk, SaveConfigured;
    HomeExists(st, s);
    SaveConfiguredSamePrims(st, s, true, env);
  }

  /** The link a caller is given stays the answer after any call about another SSID that makes
      no link primary and does not take the caller out of the MLD. */
  lemma PrimaryStays(calls: seq<Call>, c: Call, s: nat, env: Env, p: nat)
    requires s in Run(calls).links && PrimaryOf(Run(calls), s, env) == Some(p)
    requires c.ssid != p && !c.SetPrimaryCall? && (c.ssid == s ==> !Leaves(Run(calls), c))
    ensures PrimaryOf(Run(calls + [c]), s, env) == Some(p)
  {
    PrimaryIsMember(calls, s, env);
    RunComplete(calls);
    RunComplete(calls + [c]);
    assert (calls + [c])[..|calls|] == calls;
    assert Run(calls + [c]) == Step(Run(calls), c);
    hide Run;
    AnswerStays(Run(calls), c, s, env, p);
  }

  lemma AnswerStays(st: State, c: Call, s: nat, env: Env, p: nat)
    requires Complete(st) && Complete(Step(st, c)) && s in st.links && Typed(st, s, env)
    requires p in st.links && st.Link(p).mld == st.Link(s).mld && st.Home(s).prim == Some(st.Link(p).addr)
    requires c.ssid != p && !c.SetPrimaryCall? && (c.ssid == s ==> !Leaves(st, c))
    ensures PrimaryOf(Step(st, c), s, env) == Some(p)
  {
    var r, a := Step(st, c), st.Link(s).mld.value;
    HomeExists(st, s);
    HomeExists(st, p);
    StepKeepsOthers(st, c);
    MemberStays(st, c, s);
    assert p in r.links && r.links[p] == st.links[p];
    HomeExists(r, p);
    ListedLink(r, a);
    StepPrimExactly(st, c, a);
    OtherIsPrimary(st, c.ssid, p, a);
    KeepsType(st, r, c.ssid, p, a);
    hide OrderOk, MembersOk, AddrOk, Step, OthersKept;
    MemberAtFinds(r, r.Mld(a).links, p);
  }

  lemma MemberStays(st: State, c: Call, s: nat)
    requires Complete(st) && s in st.links && (c.ssid == s ==> !Leaves(st, c)) && OthersKept(st, Step(st, c), c.ssid)
    ensures s in Step(st, c).links && Step(st, c).Link(s).mld == st.Link(s).mld
  {
    hide OrderOk, MembersOk, AddrOk, Register, SaveConfigured, SetLinkId, SetPrimary, MldKept;
    if c.ssid == s {
      match c
      case RegisterCall(_, unit, env) => StaysRegistered(st, s, unit, env);
      case SetLinkIdCall(_, id, env) => SetLinkIdComplete(st, s, id, env);
      case SetPrimaryCall(_, env) => SetPrimaryComplete(st, s, env);
      case SaveConfiguredCall(_, flag, env) => SaveConfiguredComplete(st, s, flag, env);
      case SetConfiguredCall(_, flag, env) => SaveConfiguredComplete(st, s, flag, env);
    }
  }

  lemma StaysRegistered(st: State, s: nat, unit: int, env: Env)
    requires Complete(st) && s in st.links && !Leaves(st, RegisterCall(s, unit, env))
    ensures Register(st, s, unit, env) == st
  {
    HomeExists(st, s);
    hide OrderOk, MembersOk, AddrOk, FindIn;
  }

  /** Another link is not at the primary link's address. */
  lemma OtherIsPrimary(st: State, x: nat, p: nat, a: nat)
    requires WF(st) && p in st.links && x != p && st.Mld(a).prim == Some(st.Link(p).addr)
    ensures !IsPrimary(st, x, a)
  {
    hide OrderOk, MembersOk;
  }

  lemma KeepsType(st: State, r: State, s: nat, p: nat, a: nat)
    requires WF(st) && WF(r) && OthersKept(st, r, s) && p != s && a in st.mlds && p in st.mlds[a].links
    ensures a in r.mlds && r.mlds[a].typ == st.mlds[a].typ
  {
    assert p in Remove(st.mlds[a].links, s);
    assert MldKept(st, r, s, a);
  }

  // ---------- a run that leaves a primary link dangling ----------

  /** One MLD holds two links without ids, and points to the first. */
  ghost predicate FirstIsPrimary(st: State, s: nat, s': nat) {
    && st.mlds.Keys == {0} && s in st.links && st.Link(s).mld == Some(0) && st.Link(s).id == NO_LINK_ID
    && st.Mld(0).links == [s, s'] && st.Mld(0).prim == Some(st.Link(s).addr)
  }

  lemma StoresPrimary(st: State, s: nat, s': nat, env: Env)
    requires st.mlds.Keys == {0} && s in st.links && Enabled(st, s, env) && st.Link(s).mld == Some(0)
    requires st.Mld(0).links == [s, s'] && st.Link(s).id == NO_LINK_ID
    ensures FirstIsPrimary(Step(st, SetPrimaryCall(s, env)), s, s')
  {
  }

  lemma FirstOfTwoIsPrimary(s: nat, s': nat, unit: int, env: Env)
    requires s != s' && 0 <= unit < 256 && env.be && env.up && env.typ != UnknownType
    ensures
      var calls := [RegisterCall(s, unit, env), RegisterCall(s', unit, env), SetPrimaryCall(s, env)];
      FirstIsPrimary(Run(calls), s, s')
  {
    var two := [RegisterCall(s, unit, env), RegisterCall(s', unit, env)];
    var c := SetPrimaryCall(s, env);
    assert (two + [c])[..2] == two;
    assert Run(two + [c]) == Step(Run(two), c);
    hide Run, Step, FirstIsPrimary;
    R.SecondFits(s, s', unit, env);
    StoresPrimary(Run(two), s, s', env);
    assert two + [c] == [RegisterCall(s, unit, env), RegisterCall(s', unit, env), SetPrimaryCall(s, env)];
  }

  lemma FirstIsMember(st: State, s: nat, s': nat)
    requires FirstIsPrimary(st, s, s')
    ensures PrimsOk(st, false) && Leaves(st, UnregisterCall(s)) && StrandsPrimary(st, s)
  {
    assert IsPrim(st, 0, s, false);
  }

  /** When the SSID of that link is unregistered, its MLD keeps pointing to it, and a caller
      who asks for the primary link gets none. */
  lemma PrimaryDangles(s: nat, s': nat, unit: int, env: Env)
    requires s != s' && 0 <= unit < 256 && env.be && env.up && env.typ != UnknownType
    ensures
      var calls := [RegisterCall(s, unit, env), RegisterCall(s', unit, env), SetPrimaryCall(s, env)];
      PrimsOk(Run(calls), false) && !PrimsOk(Run(calls + [UnregisterCall(s)]), false)
  {
    hide Run, PrimsOk, FirstIsPrimary, Leaves, StrandsPrimary;
    var calls := [RegisterCall(s, unit, env), RegisterCall(s', unit, env), SetPrimaryCall(s, env)];
    FirstOfTwoIsPrimary(s, s', unit, env);
    FirstIsMember(Run(calls), s, s');
    PrimariesStayMembersExactly(calls, UnregisterCall(s));
  }
}
