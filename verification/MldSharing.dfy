/** Which SSIDs share an MLD, for units of any size, and exactly when a call makes two MLDs of one type and unit. */
module MldSharing {
  import opened Collections
  import opened MldModel
  import opened MldWellFormed
  import opened MldRuns
  import opened MldRegistry
  import opened MldEvents
  import opened MldOverflow

  // ---------- no two MLDs of one type and unit ----------

  /** All MLDs of the second store are MLDs of the first, under the same type and unit. */
  ghost predicate SubKeys(st: State, r: State) {
    forall a :: a in r.mlds ==> a in st.mlds && KeyAt(r, a) == KeyAt(st, a)
  }

  lemma SubKeysDistinct(st: State, r: State)
    requires SubKeys(st, r) && DistinctKeys(st)
    ensures DistinctKeys(r)
  {
  }

  lemma SameHomesSub(st: State, r: State)
    requires SameHomes(st, r)
    ensures SubKeys(st, r)
  {
  }

  lemma TakeLinkSub(st: State, s: nat)
    requires WF(st) && s in st.links && st.Link(s).mld.Some?
    ensures SubKeys(st, TakeLink(st, s)) && SubKeys(st, DeinitLink(st, s))
  {
    hide OrderOk, MembersOk, AddrOk, TakeLink, Remove;
    TakeLinkShape(st, s);
    var a, r := st.Link(s).mld.value, TakeLink(st, s);
    forall b | b in r.mlds ensures b in st.mlds && KeyAt(r, b) == KeyAt(st, b) {
      if b != a && a in r.mlds { assert b in r.mlds - {a} && (r.mlds - {a})[b] == r.mlds[b]; }
    }
  }

  lemma AttachSub(st: State, s: nat, a: nat, unit: int)
    requires a in st.mlds
    ensures SubKeys(st, Attach(st, s, a, unit)) && SubKeys(st, Attach(NewLink(st, s), s, a, unit))
  {
  }

  lemma SubKeysTrans(st: State, st1: State, r: State)
    requires SubKeys(st, st1) && SubKeys(st1, r)
    ensures SubKeys(st, r)
  {
  }

  /** A registration only takes MLDs away from the store that its target was found or made in. */
  lemma RegisterSub(st: State, s: nat, unit: int, env: Env)
    requires Complete(st)
    ensures SubKeys(TargetMld(st, unit, env).0, Register(st, s, unit, env))
  {
    hide OrderOk, MembersOk, AddrOk, TargetMld, TakeLink, DeinitLink, Attach, NewLink, SubKeys;
    var (st1, tgt) := TargetMld(st, unit, env);
    TargetMldOk(st, unit, env);
    assert SubKeys(st1, st1) by { SameSub(st1); }
    if s in st.links { TakeLinkSub(st1, s); }
    if tgt.Some? {
      AttachSub(st1, s, tgt.value, unit);
      if s in st.links && st1.Link(s).mld != tgt {
        TakeLinkKeeps(st1, s, tgt.value);
        AttachSub(TakeLink(st1, s), s, tgt.value, unit);
        SubKeysTrans(st1, TakeLink(st1, s), Attach(TakeLink(st1, s), s, tgt.value, unit));
      }
    }
  }

  lemma SameSub(st: State)
    ensures SubKeys(st, st)
  {
  }

  lemma TargetDistinct(st: State, unit: int, env: Env)
    requires WF(st) && DistinctKeys(st) && (env.be ==> unit < 256)
    ensures DistinctKeys(TargetMld(st, unit, env).0)
  {
    hide MembersOk, AddrOk, NoDup, InsertAt, InsertPos;
  }

  lemma FittingKeepsDistinct(st: State, c: Call)
    requires Complete(st) && DistinctKeys(st) && UnitFits(c)
    ensures DistinctKeys(Step(st, c))
  {
    hide OrderOk, MembersOk, AddrOk, Register, DeinitLink, SetLinkId, SetPrimary, SaveConfigured, DistinctKeys,
      SubKeys, SameHomes, TargetMld;
    match c
    case RegisterCall(s, unit, env) =>
      TargetDistinct(st, unit, env);
      RegisterSub(st, s, unit, env);
      SubKeysDistinct(TargetMld(st, unit, env).0, Step(st, c));
    case UnregisterCall(s) =>
      if s in st.links { TakeLinkSub(st, s); SubKeysDistinct(st, Step(st, c)); }
    case SetLinkIdCall(s, id, env) =>
      if s in st.links {
        SetLinkIdComplete(st, s, id, env);
        SameHomesSub(st, Step(st, c));
        SubKeysDistinct(st, Step(st, c));
      }
    case SetPrimaryCall(s, env) =>
      if s in st.links {
        SetPrimaryComplete(st, s, env);
        SameHomesSub(st, Step(st, c));
        SubKeysDistinct(st, Step(st, c));
      }
    case SaveConfiguredCall(s, flag, env) =>
      if s in st.links {
        SaveConfiguredComplete(st, s, flag, env);
        SameHomesSub(st, Step(st, c));
        SubKeysDistinct(st, Step(st, c));
      }
    case SetConfiguredCall(s, flag, env) =>
      if s in st.links { SetConfiguredSub(st, s, flag, env); SubKeysDistinct(st, Step(st, c)); }
  }

  lemma SetConfiguredSub(st: State, s: nat, flag: bool, env: Env)
    requires WF(st) && s in st.links
    ensures SubKeys(st, SetConfigured(st, s, flag, env))
  {
    hide OrderOk, MembersOk, AddrOk, SaveConfigured;
    SaveConfiguredComplete(st, s, flag, env);
  }

  /** A caller's check: every MLD that already has the type and the stored unit goes with the call. */
  ghost predicate KeyIsFree(st: State, c: Call)
    requires c.RegisterCall?
  {
    forall a :: a in st.mlds && KeyAt(st, a) == Key(c.env.typ, ToUint8(c.unit)) ==> st.mlds[a].links == [c.ssid]
  }

  /** After an overflowing registration: the new MLD, and every MLD that held another link. */
  lemma OverflowMlds(st: State, s: nat, unit: int, env: Env, a: nat)
    requires Complete(st) && Bytes(st) && unit >= 256 && env.be
    ensures
      var r := Register(st, s, unit, env);
      && (a in r.mlds <==> a == st.next || (a in st.mlds && st.mlds[a].links != [s]))
      && (a in r.mlds ==> KeyAt(r, a) == if a == st.next then Key(env.typ, ToUint8(unit)) else KeyAt(st, a))
  {
    hide MembersOk, Register, OrderWithout, ToUint8, Bytes, NoDup;
    var r := Register(st, s, unit, env);
    RegisterOk(st, s, unit, env);
    assert st.next !in st.mlds;
    forall t: SsidType
      ensures a in r.Order(t) <==> (a in st.Order(t) && st.Mld(a).links != [s]) || (t == env.typ && a == st.next)
      ensures a in r.Order(t) ==> r.Mld(a).unit == if a == st.next then ToUint8(unit) else st.Mld(a).unit
    {
      hide OrderOk, AddrOk;
      OverflowOrder(st, s, unit, env, t);
      Survivors(st, s, t);
      ListedExist(st, t);
    }
    InSomeOrder(r, a);
    InSomeOrder(st, a);
    hide OrderOk, WF;
    var u := env.typ;
    assert a in r.Order(u) <==> (a in st.Order(u) && st.Mld(a).links != [s]) || a == st.next;
    if a in st.mlds {
      var t := st.mlds[a].typ;
      assert a in r.Order(t) <==> (a in st.Order(t) && st.Mld(a).links != [s]) || (t == u && a == st.next);
    }
  }

  lemma InSomeOrder(st: State, a: nat)
    requires OrderOk(st)
    ensures a in st.mlds <==> exists t: SsidType :: a in st.Order(t)
    ensures forall t: SsidType :: a in st.Order(t) ==> st.Mld(a).typ == t
  {
    hide NoDup;
    if a in st.mlds { assert a in st.Order(st.mlds[a].typ); }
  }

  lemma OverflowDistinct(st: State, c: Call)
    requires Complete(st) && Bytes(st) && DistinctKeys(st) && c.RegisterCall? && !UnitFits(c)
    ensures DistinctKeys(Step(st, c)) <==> KeyIsFree(st, c)
  {
    hide Complete, Bytes, Register, KeyAt, ToUint8;
    var r := Step(st, c);
    forall a ensures a in r.mlds <==> a == st.next || (a in st.mlds && st.mlds[a].links != [c.ssid])
             ensures a in r.mlds && a == st.next ==> KeyAt(r, a) == Key(c.env.typ, ToUint8(c.unit))
             ensures a in r.mlds && a != st.next ==> KeyAt(r, a) == KeyAt(st, a) {
      OverflowMlds(st, c.ssid, c.unit, c.env, a);
    }
    NextUnlisted(st);
    if DistinctKeys(r) {
      forall a | a in st.mlds && KeyAt(st, a) == Key(c.env.typ, ToUint8(c.unit)) ensures st.mlds[a].links == [c.ssid] {
        assert st.mlds[a].links == [c.ssid] || (a in r.mlds && st.next in r.mlds);
      }
    }
  }

  lemma NextUnlisted(st: State)
    requires Complete(st)
    ensures st.next !in st.mlds
  {
    hide OrderOk, MembersOk;
  }

  /** From MLDs of distinct types and units, a call leads to such MLDs if and only if its unit
      fits the byte, or every MLD under its type and stored unit holds only the call's own link. */
  lemma KeysStayDistinctExactly(calls: seq<Call>, c: Call)
    requires DistinctKeys(Run(calls))
    ensures DistinctKeys(Run(calls + [c])) <==> UnitFits(c) || KeyIsFree(Run(calls), c)
  {
    assert (calls + [c])[..|calls|] == calls;
    assert Run(calls + [c]) == Step(Run(calls), c);
    RunComplete(calls);
    RunBytes(calls);
    hide Run, Step, Complete, DistinctKeys, Bytes, KeyIsFree;
    if UnitFits(c) {
      FittingKeepsDistinct(Run(calls), c);
    } else {
      OverflowDistinct(Run(calls), c);
    }
  }

  // ---------- who shares ----------

  /** While MLDs have distinct types and units, two registered SSIDs share an MLD exactly when
      their latest registrations name the same type and, up to truncation, the same unit. */
  lemma SharersExactly(calls: seq<Call>, s: nat, s': nat)
    requires DistinctKeys(Run(calls)) && Target(calls, s).Some? && Target(calls, s').Some?
    ensures s in Run(calls).links && s' in Run(calls).links
    ensures Run(calls).Link(s).mld == Run(calls).Link(s').mld <==> Stored(Target(calls, s)) == Stored(Target(calls, s'))
  {
    hide Run, Target, OrderOk, AddrOk;
    LinkFollowsLatestRegistration(calls, s);
    LinkFollowsLatestRegistration(calls, s');
    RunComplete(calls);
    HomeExists(Run(calls), s);
    HomeExists(Run(calls), s');
    var a, b := Run(calls).Link(s).mld.value, Run(calls).Link(s').mld.value;
    assert KeyAt(Run(calls), a) == KeyAt(Run(calls), b) ==> a == b;
  }

  predicate Overflows(k: Option<Key>) {
    k.Some? && k.value.unit >= 256
  }

  /** A link stays in its MLD unless its own SSID is registered or unregistered. */
  lemma StaysInMld(st: State, c: Call, x: nat)
    requires Complete(st) && x in st.links && (c.ssid != x || !(c.RegisterCall? || c.UnregisterCall?))
    ensures x in Step(st, c).links && Step(st, c).Link(x).mld == st.Link(x).mld
  {
    hide OrderOk, MembersOk, AddrOk, Register, DeinitLink, SetLinkId, SetPrimary, SaveConfigured, MldKept;
    if c.ssid != x {
      StepKeepsOthers(st, c);
      hide Step;
    } else {
      match c
      case SetLinkIdCall(s, id, env) => SetLinkIdComplete(st, s, id, env);
      case SetPrimaryCall(s, env) => SetPrimaryComplete(st, s, env);
      case SaveConfiguredCall(s, flag, env) => SaveConfiguredComplete(st, s, flag, env);
      case SetConfiguredCall(s, flag, env) => SaveConfiguredComplete(st, s, flag, env);
      case _ =>
    }
  }

  /** An overflowing registration gives its link an MLD of its own. */
  lemma OverflowMldIsNew(st: State, s: nat, unit: int, env: Env)
    requires Complete(st) && Bytes(st) && unit >= 256 && env.be
    ensures s in Register(st, s, unit, env).links && Register(st, s, unit, env).Link(s).mld == Some(st.next)
  {
    hide OrderOk, MembersOk, AddrOk, FindIn, CreateMld, TakeLink, NewLink, Register, Bytes;
    OverflowMisses(st, unit, env);
    RegisterToNew(st, s, unit, env);
  }

  lemma OthersBelowNext(st: State, x: nat)
    requires Complete(st) && x in st.links
    ensures st.Link(x).mld != Some(st.next)
  {
    hide OrderOk;
    HomeExists(st, x);
  }

  /** In any run, two SSIDs whose latest registrations overflow never share an MLD, whatever units they named. */
  lemma {:induction false} OverflowersNeverShare(calls: seq<Call>, s: nat, s': nat)
    requires s != s' && Overflows(Target(calls, s)) && Overflows(Target(calls, s'))
    ensures s in Run(calls).links && s' in Run(calls).links && Run(calls).Link(s).mld != Run(calls).Link(s').mld
    decreases |calls|, 1
  {
    if calls[|calls| - 1].ssid == s' {
      OverflowersStep(calls, s', s);
    } else {
      OverflowersStep(calls, s, s');
    }
  }

  /** The last call is not about `x`. */
  lemma {:induction false} OverflowersStep(calls: seq<Call>, s: nat, x: nat)
    requires calls != [] && s != x && Overflows(Target(calls, s)) && Overflows(Target(calls, x))
    requires calls[|calls| - 1].ssid != x
    ensures s in Run(calls).links && x in Run(calls).links && Run(calls).Link(s).mld != Run(calls).Link(x).mld
    decreases |calls|, 0
  {
    var n := |calls| - 1;
    var c, prev := calls[n], calls[..n];
    var st := Run(prev);
    assert Run(calls) == Step(st, c) && Target(calls, x) == Target(prev, x);
    RunComplete(prev);
    RunBytes(prev);
    TargetHasLink(prev, x);
    if c.ssid == s && c.RegisterCall? {
      assert c.unit >= 256 && c.env.be;
      hide Run, Target, Complete, Bytes, Register, KeyOf;
      OverflowMldIsNew(st, s, c.unit, c.env);
      StaysInMld(st, c, x);
      OthersBelowNext(st, x);
    } else {
      assert Target(calls, s) == Target(prev, s) && (c.ssid != s || !c.UnregisterCall?);
      hide Run, Target, Complete, Bytes, Step, KeyOf;
      OverflowersNeverShare(prev, s, x);
      StaysInMld(st, c, s);
      StaysInMld(st, c, x);
    }
  }

  lemma TargetHasLink(calls: seq<Call>, x: nat)
    requires Target(calls, x).Some?
    ensures x in Run(calls).links
  {
    hide Run, Target;
    LinkFollowsLatestRegistration(calls, x);
  }

  // ---------- an input that separates equal registrations ----------

  ghost predicate OneMld(st: State, unit: int, t: SsidType) {
    && st.Order(t) == [0] && st.Mld(0).unit == unit && st.next == 2
    && st.links.Keys == {1} && st.Link(1).mld == Some(0)
  }

  lemma FirstMld(unit: int, env: Env)
    requires 0 <= unit < 256 && env.be
    ensures OneMld(Run([RegisterCall(1, unit, env)]), unit, env.typ)
  {
    hide Run;
    FirstRegistration(1, unit, env);
  }

  ghost predicate TwoMlds(st: State, unit: int, t: SsidType) {
    && st.Order(t) == [0, 2] && st.Mld(0).unit == unit && st.Mld(2).unit == unit
    && 1 in st.links && st.Link(1).mld == Some(0) && 3 !in st.links
  }

  lemma SecondMld(st: State, unit: int, env: Env)
    requires Complete(st) && Bytes(st) && 0 <= unit < 256 && env.be && OneMld(st, unit, env.typ)
    ensures TwoMlds(Step(st, RegisterCall(2, unit + 256, env)), unit, env.typ)
  {
    hide Register, Complete, Bytes, OrderWithout, Step;
    OverflowOrder(st, 2, unit + 256, env, env.typ);
    OrderWithoutNone(st, 2, env.typ);
    OtherLinks(st, RegisterCall(2, unit + 256, env));
    StepIsRegister(st, 2, unit + 256, env);
  }

  lemma StepIsRegister(st: State, s: nat, unit: int, env: Env)
    ensures Step(st, RegisterCall(s, unit, env)) == Register(st, s, unit, env)
  {
  }

  lemma OtherLinks(st: State, c: Call)
    requires Complete(st)
    ensures forall x :: x != c.ssid ==> (x in Step(st, c).links <==> x in st.links) && Step(st, c).Link(x) == st.Link(x)
  {
    hide Step, WF, MldKept;
    StepKeepsOthers(st, c);
  }

  lemma SecondOverflow(unit: int, env: Env)
    requires 0 <= unit < 256 && env.be
    ensures TwoMlds(Run([RegisterCall(1, unit, env), RegisterCall(2, unit + 256, env)]), unit, env.typ)
  {
    var c1, c2 := RegisterCall(1, unit, env), RegisterCall(2, unit + 256, env);
    assert [c1, c2][..1] == [c1];
    assert Run([c1, c2]) == Step(Run([c1]), c2);
    hide Run, Step, Complete, Bytes, OneMld, TwoMlds;
    FirstMld(unit, env);
    RunComplete([c1]);
    RunBytes([c1]);
    SecondMld(Run([c1]), unit, env);
  }

  /** With an overflowing registration between them, two registrations for the same fitting
      unit end in different MLDs: the later one finds the MLD filed under the truncated unit. */
  lemma OverflowSeparates(unit: int, env: Env)
    requires 0 <= unit < 256 && env.be
    ensures
      var calls := [RegisterCall(1, unit, env), RegisterCall(2, unit + 256, env), RegisterCall(3, unit, env)];
      && Target(calls, 1) == Target(calls, 3) == Some(Key(env.typ, unit))
      && Run(calls).Link(1).mld == Some(0) && Run(calls).Link(3).mld == Some(2)
      && !DistinctKeys(Run(calls[..2]))
  {
    var c1, c2, c3 := RegisterCall(1, unit, env), RegisterCall(2, unit + 256, env), RegisterCall(3, unit, env);
    var calls := [c1, c2, c3];
    assert calls[..2] == [c1, c2] && [c1, c2][..1] == [c1];
    assert Target([c1], 1) == Some(Key(env.typ, unit)) && Target([c1, c2], 1) == Target([c1], 1);
    assert Run(calls) == Step(Run([c1, c2]), c3);
    hide Run, Step, Complete, TwoMlds;
    SecondOverflow(unit, env);
    RunComplete([c1, c2]);
    ThirdFindsSecond(Run([c1, c2]), unit, env);
    TwoMldsClash(Run([c1, c2]), unit, env.typ);
  }

  lemma ThirdFindsSecond(st: State, unit: int, env: Env)
    requires Complete(st) && unit >= 0 && env.be && TwoMlds(st, unit, env.typ)
    ensures
      var r := Step(st, RegisterCall(3, unit, env));
      r.Link(1).mld == Some(0) && r.Link(3).mld == Some(2)
  {
    hide WF;
    OtherLinks(st, RegisterCall(3, unit, env));
    assert FindIn(st, [0, 2], unit) == Some(2);
    hide FindIn;
  }

  lemma TwoMldsClash(st: State, unit: int, t: SsidType)
    requires Complete(st) && TwoMlds(st, unit, t)
    ensures !DistinctKeys(st)
  {
    hide MembersOk, AddrOk, NoDup;
    assert 0 in st.Order(t) && 2 in st.Order(t);
    assert KeyAt(st, 0) == KeyAt(st, 2);
  }
}
