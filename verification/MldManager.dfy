/**
  The link manager as it is: SSIDs, links, MLDs and groups that point at each other and
  are relinked in place. Every method is proved to compute, on the store the objects
  stand for, the function of MldModel of the same name.
 */
module MldManager {
  import opened Collections
  import M = MldModel
  import W = MldWellFormed
  import R = MldRuns
  import Q = MldRadio

  class Radio {
    var enable: bool
    var supports11be: bool
  }

  class Ssid {
    const id: nat
    var hasAp: bool
    var hasEp: bool
    var enable: bool
    var rad: Radio?
    var pMldLink: MldLink?

    constructor (id: nat)
      ensures this.id == id && pMldLink == null
    {
      this.id := id;
      pMldLink := null;
    }

    /** wld_ssid_getType. */
    function Type(): M.SsidType
      reads this
    {
      if hasAp then M.ApType else if hasEp then M.EpType else M.UnknownType
    }

    /** What a call about this SSID reads outside the manager. */
    function Env(): M.Env
      reads this, rad
    {
      M.Env(Type(), rad != null && enable && rad.enable, rad != null && rad.supports11be)
    }
  }

  class MldLink {
    ghost const addr: nat
    const ssid: Ssid
    var linkId: int
    var pMld: Mld?
    var configured: bool

    constructor (ghost addr: nat, ssid: Ssid)
      ensures this.addr == addr && this.ssid == ssid
      ensures linkId == M.NO_LINK_ID && pMld == null && !configured
    {
      this.addr := addr;
      this.ssid := ssid;
      linkId, pMld, configured := M.NO_LINK_ID, null, false;
    }
  }

  class Mld {
    ghost const addr: nat
    const unit: nat
    var links: seq<MldLink>
    var pGroup: MldGroup?
    var pPrimLink: MldLink?

    constructor (ghost addr: nat, unit: int, group: MldGroup)
      ensures this.addr == addr && this.unit == M.ToUint8(unit) && links == [] && pGroup == group && pPrimLink == null
    {
      this.addr := addr;
      this.unit := M.ToUint8(unit);
      links, pGroup, pPrimLink := [], group, null;
    }
  }

  class MldGroup {
    const typ: M.SsidType
    var mlds: seq<Mld>

    constructor (typ: M.SsidType)
      ensures this.typ == typ && mlds == []
    {
      this.typ, mlds := typ, [];
    }
  }

  ghost function SsidsOf(ls: seq<MldLink>): (r: seq<nat>)
    ensures |r| == |ls| && forall i :: 0 <= i < |ls| ==> r[i] == ls[i].ssid.id
  {
    seq(|ls|, i requires 0 <= i < |ls| => ls[i].ssid.id)
  }

  ghost function AddrsOf(ms: seq<Mld>): (r: seq<nat>)
    ensures |r| == |ms| && forall i :: 0 <= i < |ms| ==> r[i] == ms[i].addr
  {
    seq(|ms|, i requires 0 <= i < |ms| => ms[i].addr)
  }

  // ---------- lists of nodes and lists of names ----------

  lemma {:induction false} RemoveSsid(ls: seq<MldLink>, l: MldLink)
    requires forall x :: x in ls && x.ssid.id == l.ssid.id ==> x == l
    ensures SsidsOf(Remove(ls, l)) == Remove(SsidsOf(ls), l.ssid.id)
  {
    var xs := SsidsOf(ls);
    if l in ls {
      var i := IndexOf(ls, l);
      assert xs[i] == l.ssid.id;
      var j := IndexOf(xs, l.ssid.id);
      assert ls[j] in ls;
      assert j == i;
      assert Remove(xs, l.ssid.id) == xs[..i] + xs[i + 1..];
    } else {
      forall i | 0 <= i < |xs| ensures xs[i] != l.ssid.id { assert ls[i] in ls; }
    }
  }

  lemma {:induction false} RemoveAddr(ms: seq<Mld>, m: Mld)
    requires forall x :: x in ms && x.addr == m.addr ==> x == m
    ensures AddrsOf(Remove(ms, m)) == Remove(AddrsOf(ms), m.addr)
  {
    var xs := AddrsOf(ms);
    if m in ms {
      var i := IndexOf(ms, m);
      assert xs[i] == m.addr;
      var j := IndexOf(xs, m.addr);
      assert ms[j] in ms;
      assert Remove(xs, m.addr) == xs[..i] + xs[i + 1..];
    } else {
      forall i | 0 <= i < |xs| ensures xs[i] != m.addr { assert ms[i] in ms; }
    }
  }

  lemma {:induction false} FindInStep(st: M.State, xs: seq<nat>, i: nat, unit: int)
    requires i < |xs|
    ensures M.FindIn(st, xs[..i + 1], unit) ==
            if st.Mld(xs[i]).unit == unit then Some(xs[i]) else M.FindIn(st, xs[..i], unit)
  {
    assert xs[..i + 1][..i] == xs[..i];
  }

  lemma {:induction false} InsertPosUnique(st: M.State, xs: seq<nat>, unit: int, k: nat)
    requires k <= |xs|
    requires forall i :: 0 <= i < k ==> st.Mld(xs[i]).unit <= unit
    requires k < |xs| ==> st.Mld(xs[k]).unit > unit
    ensures M.InsertPos(st, xs, unit) == k
  {
  }

  lemma {:induction false} AfterLastConfUnique(st: M.State, xs: seq<nat>, k: nat)
    requires k <= |xs|
    requires forall i :: k <= i < |xs| ==> !st.Link(xs[i]).conf
    requires k > 0 ==> st.Link(xs[k - 1]).conf
    ensures M.AfterLastConf(st, xs) == k
  {
  }

  class MldMgr {
    const groups: seq<MldGroup>
    ghost const ssidAt: map<nat, Ssid>
    var events: seq<M.Event>

    /** The store the objects stand for, and the objects: MLDs by address, links by SSID,
        and every link ever made by address. */
    ghost var st: M.State
    ghost var mldAt: map<nat, Mld>
    ghost var linkAt: map<nat, MldLink>
    ghost var linkObj: map<nat, MldLink>

    function GroupIndex(t: M.SsidType): (i: nat)
      ensures i < 3
    {
      match t case UnknownType => 0 case ApType => 1 case EpType => 2
    }

    ghost predicate GroupShows(g: MldGroup, xs: seq<nat>, mldAt: map<nat, Mld>)
      reads g
    {
      AddrsOf(g.mlds) == xs && forall m :: m in g.mlds ==> m.addr in mldAt && mldAt[m.addr] == m
    }

    ghost predicate MldShows(m: Mld, a: nat, r: M.MldRec, linkAt: map<nat, MldLink>, linkObj: map<nat, MldLink>)
      reads m
    {
      && m.addr == a && m.unit == r.unit
      && |groups| == 3 && m.pGroup == groups[GroupIndex(r.typ)]
      && SsidsOf(m.links) == r.links
      && (forall l :: l in m.links ==> l.ssid.id in linkAt && linkAt[l.ssid.id] == l)
      && (match r.prim
          case None => m.pPrimLink == null
          case Some(p) => p in linkObj && m.pPrimLink == linkObj[p])
    }

    ghost predicate LinkShows(l: MldLink, s: nat, r: M.LinkRec, mldAt: map<nat, Mld>, linkObj: map<nat, MldLink>)
      reads l
    {
      && l.ssid.id == s && s in ssidAt && l.ssid == ssidAt[s]
      && l.addr == r.addr && l.addr in linkObj && linkObj[l.addr] == l
      && l.linkId == r.id && l.configured == r.conf
      && (match r.mld
          case None => l.pMld == null
          case Some(a) => a in mldAt && l.pMld == mldAt[a])
    }

    ghost predicate SsidShows(x: Ssid, s: nat, linkAt: map<nat, MldLink>)
      reads x`pMldLink
    {
      x.id == s && if s in linkAt then x.pMldLink == linkAt[s] else x.pMldLink == null
    }

    ghost predicate GroupsRep(order: map<M.SsidType, seq<nat>>, mldAt: map<nat, Mld>)
      reads groups
    {
      && |groups| == 3
      && (forall t :: t in order && groups[GroupIndex(t)].typ == t)
      && (forall t :: t in order ==> GroupShows(groups[GroupIndex(t)], order[t], mldAt))
    }

    ghost predicate MldsRep(mlds: map<nat, M.MldRec>, mldAt: map<nat, Mld>, linkAt: map<nat, MldLink>,
      linkObj: map<nat, MldLink>)
      reads mldAt.Values
    {
      && mldAt.Keys == mlds.Keys
      && (forall a :: a in mldAt ==> MldShows(mldAt[a], a, mlds[a], linkAt, linkObj))
    }

    ghost predicate LinksRep(links: map<nat, M.LinkRec>, mldAt: map<nat, Mld>, linkAt: map<nat, MldLink>,
      linkObj: map<nat, MldLink>)
      reads linkAt.Values
    {
      && linkAt.Keys == links.Keys
      && (forall s :: s in linkAt ==> LinkShows(linkAt[s], s, links[s], mldAt, linkObj))
    }

    ghost predicate SsidsRep(linkAt: map<nat, MldLink>)
      reads ssidAt.Values`pMldLink
    {
      forall s :: s in ssidAt ==> SsidShows(ssidAt[s], s, linkAt)
    }

    /** Addresses once used are below `next`, and each is that of one link. */
    ghost predicate AddrsRep(mldAt: map<nat, Mld>, linkObj: map<nat, MldLink>, next: nat) {
      && (forall a :: a in linkObj ==> a < next && linkObj[a].addr == a)
      && (forall a :: a in mldAt ==> a < next)
    }

    /** Every object shows what the store says. */
    ghost predicate Rep()
      reads this, groups, mldAt.Values, linkAt.Values, ssidAt.Values
    {
      && GroupsRep(st.order, mldAt)
      && MldsRep(st.mlds, mldAt, linkAt, linkObj)
      && LinksRep(st.links, mldAt, linkAt, linkObj)
      && SsidsRep(linkAt)
      && AddrsRep(mldAt, linkObj, st.next)
      && st.events == events
    }

    ghost predicate Valid()
      reads this, groups, mldAt.Values, linkAt.Values, ssidAt.Values
    {
      Rep() && W.WF(st)
    }

    /** The SSID is one of this manager's. */
    ghost predicate Knows(x: Ssid) {
      x.id in ssidAt && ssidAt[x.id] == x
    }

    ghost predicate HasMld(m: Mld)
      reads this
    {
      m.addr in mldAt && mldAt[m.addr] == m
    }

    ghost predicate HasLink(l: MldLink)
      reads this
    {
      l.ssid.id in linkAt && linkAt[l.ssid.id] == l
    }

    // ---------- single writes ----------

    /** The record a link would show with these fields. */
    ghost function LinkWith(l: MldLink, linkId: int, configured: bool, pMld: Mld?): M.LinkRec {
      M.LinkRec(l.addr, if pMld == null then None else Some(pMld.addr), linkId, configured)
    }

    method WriteLinkFields(l: MldLink, linkId: int, configured: bool, pMld: Mld?, ghost links: map<nat, M.LinkRec>)
      requires LinksRep(links, mldAt, linkAt, linkObj) && HasLink(l) && (pMld != null ==> HasMld(pMld))
      modifies l
      ensures LinksRep(links[l.ssid.id := LinkWith(l, linkId, configured, pMld)], mldAt, linkAt, linkObj)
    {
      assert LinkShows(l, l.ssid.id, links[l.ssid.id], mldAt, linkObj);
      l.linkId, l.configured, l.pMld := linkId, configured, pMld;
    }

    method WriteLink(l: MldLink, linkId: int, configured: bool, pMld: Mld?)
      requires Rep() && HasLink(l) && (pMld != null ==> HasMld(pMld))
      modifies l, this`st
      ensures Rep()
      ensures st == old(st).WithLink(l.ssid.id, LinkWith(l, linkId, configured, pMld))
    {
      hide GroupsRep, MldsRep, LinksRep, SsidsRep, AddrsRep, LinkWith;
      WriteLinkFields(l, linkId, configured, pMld, st.links);
      st := st.WithLink(l.ssid.id, LinkWith(l, linkId, configured, pMld));
    }

    ghost function MldWith(r: M.MldRec, links: seq<MldLink>, pPrimLink: MldLink?): M.MldRec {
      r.(links := SsidsOf(links), prim := if pPrimLink == null then None else Some(pPrimLink.addr))
    }

    method WriteMldFields(m: Mld, links: seq<MldLink>, pPrimLink: MldLink?, ghost mlds: map<nat, M.MldRec>)
      requires MldsRep(mlds, mldAt, linkAt, linkObj) && HasMld(m)
      requires forall l :: l in links ==> HasLink(l)
      requires pPrimLink != null ==> pPrimLink.addr in linkObj && linkObj[pPrimLink.addr] == pPrimLink
      modifies m
      ensures m.addr in mlds && MldsRep(mlds[m.addr := MldWith(mlds[m.addr], links, pPrimLink)], mldAt, linkAt, linkObj)
    {
      assert MldShows(m, m.addr, mlds[m.addr], linkAt, linkObj);
      m.links, m.pPrimLink := links, pPrimLink;
    }

    method WriteMld(m: Mld, links: seq<MldLink>, pPrimLink: MldLink?)
      requires Rep() && HasMld(m)
      requires forall l :: l in links ==> HasLink(l)
      requires pPrimLink != null ==> pPrimLink.addr in linkObj && linkObj[pPrimLink.addr] == pPrimLink
      modifies m, this`st
      ensures Rep()
      ensures st == old(st).WithMld(m.addr, MldWith(old(st).Mld(m.addr), links, pPrimLink))
    {
      hide GroupsRep, MldsRep, LinksRep, SsidsRep, AddrsRep, MldWith;
      WriteMldFields(m, links, pPrimLink, st.mlds);
      st := st.WithMld(m.addr, MldWith(st.Mld(m.addr), links, pPrimLink));
    }

    method WriteGroupField(t: M.SsidType, ms: seq<Mld>, ghost order: map<M.SsidType, seq<nat>>)
      requires GroupsRep(order, mldAt) && forall m :: m in ms ==> HasMld(m)
      modifies groups[GroupIndex(t)]
      ensures GroupsRep(order[t := AddrsOf(ms)], mldAt)
    {
      groups[GroupIndex(t)].mlds := ms;
    }

    method WriteGroup(t: M.SsidType, ms: seq<Mld>)
      requires Rep() && forall m :: m in ms ==> HasMld(m)
      modifies groups, this`st
      ensures Rep()
      ensures st == old(st).(order := old(st).order[t := AddrsOf(ms)])
    {
      hide GroupsRep, MldsRep, LinksRep, SsidsRep, AddrsRep;
      GroupView(t);
      WriteGroupField(t, ms, st.order);
      st := st.(order := st.order[t := AddrsOf(ms)]);
    }

    // The maps of the address space grow and shrink without any object changing.

    lemma MldAdded(m: Mld, r: M.MldRec)
      requires Rep() && m.addr == st.next && MldShows(m, m.addr, r, linkAt, linkObj)
      ensures GroupsRep(st.order, mldAt[m.addr := m])
      ensures MldsRep(st.mlds[m.addr := r], mldAt[m.addr := m], linkAt, linkObj)
      ensures LinksRep(st.links, mldAt[m.addr := m], linkAt, linkObj)
      ensures AddrsRep(mldAt[m.addr := m], linkObj, st.next + 1)
    {
      hide SsidsRep;
    }

    lemma MldRemoved(m: Mld)
      requires Rep() && HasMld(m)
      requires forall t :: m.addr !in st.Order(t)
      requires forall s :: s in st.links ==> st.links[s].mld != Some(m.addr)
      ensures GroupsRep(st.order, mldAt - {m.addr})
      ensures MldsRep(st.mlds - {m.addr}, mldAt - {m.addr}, linkAt, linkObj)
      ensures LinksRep(st.links, mldAt - {m.addr}, linkAt, linkObj)
      ensures AddrsRep(mldAt - {m.addr}, linkObj, st.next)
      ensures m !in (mldAt - {m.addr}).Values
    {
      MldRemovedGroups(m);
      hide SsidsRep, GroupsRep;
    }

    lemma MldRemovedGroups(m: Mld)
      requires Rep() && HasMld(m)
      requires forall t :: m.addr !in st.Order(t)
      ensures GroupsRep(st.order, mldAt - {m.addr})
    {
      hide SsidsRep, MldsRep, LinksRep, AddrsRep;
      forall t ensures t in st.order && GroupShows(groups[GroupIndex(t)], st.order[t], mldAt - {m.addr}) {
        var g := groups[GroupIndex(t)];
        assert GroupShows(g, st.order[t], mldAt) && m.addr !in st.Order(t);
        forall x | x in g.mlds ensures x.addr != m.addr {
          assert AddrsOf(g.mlds)[IndexOf(g.mlds, x)] == x.addr;
        }
      }
    }

    lemma LinkAdded(l: MldLink)
      requires Rep() && l.addr == st.next && l.ssid.id !in linkAt && Knows(l.ssid)
      requires l.linkId == M.NO_LINK_ID && l.pMld == null && !l.configured
      ensures MldsRep(st.mlds, mldAt, linkAt[l.ssid.id := l], linkObj[l.addr := l])
      ensures LinksRep(M.NewLink(st, l.ssid.id).links, mldAt, linkAt[l.ssid.id := l], linkObj[l.addr := l])
      ensures AddrsRep(mldAt, linkObj[l.addr := l], st.next + 1)
    {
      hide SsidsRep, GroupsRep;
    }

    lemma LinkRemoved(l: MldLink)
      requires Rep() && HasLink(l)
      requires forall a :: a in st.mlds ==> l.ssid.id !in st.mlds[a].links
      ensures MldsRep(st.mlds, mldAt, linkAt - {l.ssid.id}, linkObj)
      ensures LinksRep(st.links - {l.ssid.id}, mldAt, linkAt - {l.ssid.id}, linkObj)
    {
      hide SsidsRep, GroupsRep, AddrsRep;
      forall a | a in mldAt ensures MldShows(mldAt[a], a, st.mlds[a], linkAt - {l.ssid.id}, linkObj) {
        var m := mldAt[a];
        assert MldShows(m, a, st.mlds[a], linkAt, linkObj);
        forall x | x in m.links ensures x.ssid.id != l.ssid.id {
          assert SsidsOf(m.links)[IndexOf(m.links, x)] == x.ssid.id;
        }
      }
    }

    method WriteSsid(x: Ssid, l: MldLink?, ghost linkAt: map<nat, MldLink>)
      requires SsidsRep(linkAt) && Knows(x) && (l != null ==> l.ssid == x)
      modifies x`pMldLink
      ensures SsidsRep(if l == null then linkAt - {x.id} else linkAt[x.id := l])
    {
      x.pMldLink := l;
    }

    lemma NextUnused()
      requires Rep()
      ensures st.next !in mldAt
    {
      hide GroupsRep, MldsRep, LinksRep, SsidsRep;
    }

    method AllocMld(t: M.SsidType, unit: int) returns (m: Mld)
      requires Rep()
      modifies this`st, this`mldAt
      ensures Rep() && HasMld(m) && fresh(m) && m.addr == old(st).next && m.links == [] && m.pPrimLink == null
      ensures mldAt == old(mldAt)[m.addr := m] && m.addr !in old(mldAt)
      ensures st == old(st).(mlds := old(st).mlds[m.addr := M.MldRec(t, M.ToUint8(unit), [], None)],
        next := old(st).next + 1)
    {
      hide GroupsRep, MldsRep, LinksRep, SsidsRep, AddrsRep;
      GroupView(t);
      NextUnused();
      m := new Mld(st.next, unit, groups[GroupIndex(t)]);
      MldAdded(m, M.MldRec(t, M.ToUint8(unit), [], None));
      mldAt := mldAt[m.addr := m];
      st := st.(mlds := st.mlds[m.addr := M.MldRec(t, M.ToUint8(unit), [], None)], next := st.next + 1);
    }

    method FreeMld(m: Mld)
      requires Rep() && HasMld(m)
      requires forall t :: m.addr !in st.Order(t)
      requires forall s :: s in st.links ==> st.links[s].mld != Some(m.addr)
      modifies m, this`st, this`mldAt
      ensures Rep()
      ensures mldAt == old(mldAt) - {m.addr}
      ensures st == old(st).(mlds := old(st).mlds - {m.addr})
    {
      hide GroupsRep, MldsRep, LinksRep, SsidsRep, AddrsRep;
      MldRemoved(m);
      mldAt := mldAt - {m.addr};
      st := st.(mlds := st.mlds - {m.addr});
      m.pGroup := null;
    }

    method AllocLink(x: Ssid) returns (l: MldLink)
      requires Rep() && Knows(x) && x.id !in linkAt
      modifies this`st, this`linkAt, this`linkObj, x`pMldLink
      ensures Rep() && HasLink(l) && fresh(l) && l.ssid == x && l.addr == old(st).next
      ensures linkAt == old(linkAt)[x.id := l] && linkObj == old(linkObj)[l.addr := l]
      ensures st == M.NewLink(old(st), x.id)
    {
      hide GroupsRep, MldsRep, LinksRep, SsidsRep, AddrsRep;
      l := new MldLink(st.next, x);
      LinkAdded(l);
      WriteSsid(x, l, linkAt);
      linkAt := linkAt[x.id := l];
      linkObj := linkObj[l.addr := l];
      st := M.NewLink(st, x.id);
    }

    method FreeLink(l: MldLink)
      requires Rep() && HasLink(l)
      requires forall a :: a in st.mlds ==> l.ssid.id !in st.mlds[a].links
      modifies this`st, this`linkAt, l.ssid`pMldLink
      ensures Rep()
      ensures linkAt == old(linkAt) - {l.ssid.id}
      ensures st == M.FreeLink(old(st), l.ssid.id)
    {
      hide GroupsRep, MldsRep, LinksRep, SsidsRep, AddrsRep;
      LinkView(l);
      LinkRemoved(l);
      WriteSsid(l.ssid, null, linkAt);
      linkAt := linkAt - {l.ssid.id};
      st := M.FreeLink(st, l.ssid.id);
    }

    /** s_sendChangeEvent. */
    method SendChangeEvent(kind: M.EventKind, t: M.SsidType, unit: int, x: Ssid)
      requires Rep()
      modifies this`events, this`st
      ensures Rep() && st == old(st).WithEvent(M.Event(kind, t, unit, x.id))
    {
      hide GroupsRep, MldsRep, LinksRep, SsidsRep, AddrsRep;
      events := events + [M.Event(kind, t, unit, x.id)];
      st := st.WithEvent(M.Event(kind, t, unit, x.id));
    }

    // ---------- what one object shows ----------

    lemma LinkView(l: MldLink)
      requires Rep() && HasLink(l)
      ensures l.ssid.id in st.links && st.links[l.ssid.id] == LinkWith(l, l.linkId, l.configured, l.pMld)
      ensures l.pMld != null ==> HasMld(l.pMld)
      ensures Knows(l.ssid) && l.ssid.pMldLink == l
      ensures l.addr in linkObj && linkObj[l.addr] == l
    {
      hide GroupsRep, AddrsRep;
      assert LinkShows(l, l.ssid.id, st.links[l.ssid.id], mldAt, linkObj);
      assert SsidShows(l.ssid, l.ssid.id, linkAt);
      if l.pMld != null {
        assert MldShows(l.pMld, st.links[l.ssid.id].mld.value, st.mlds[st.links[l.ssid.id].mld.value], linkAt, linkObj);
      }
    }

    lemma MldView(m: Mld)
      requires Rep() && HasMld(m)
      ensures m.addr in st.mlds && st.mlds[m.addr].unit == m.unit && st.mlds[m.addr].links == SsidsOf(m.links)
      ensures m.pGroup != null && m.pGroup.typ == st.mlds[m.addr].typ && |groups| == 3 &&
        m.pGroup == groups[GroupIndex(m.pGroup.typ)]
      ensures forall l :: l in m.links ==> HasLink(l)
      ensures st.mlds[m.addr].prim == if m.pPrimLink == null then None else Some(m.pPrimLink.addr)
      ensures m.pPrimLink != null ==> m.pPrimLink.addr in linkObj && linkObj[m.pPrimLink.addr] == m.pPrimLink
      ensures st.mlds[m.addr] == MldWith(st.mlds[m.addr], m.links, m.pPrimLink)
    {
      hide LinksRep, SsidsRep;
      assert MldShows(m, m.addr, st.mlds[m.addr], linkAt, linkObj);
    }

    lemma SsidView(x: Ssid)
      requires Rep() && Knows(x)
      ensures x.id in st.links ==> x.pMldLink != null && HasLink(x.pMldLink) && x.pMldLink.ssid == x
      ensures x.id !in st.links ==> x.pMldLink == null
    {
      hide GroupsRep, MldsRep, AddrsRep;
      assert SsidShows(x, x.id, linkAt);
      if x.id in linkAt { assert LinkShows(linkAt[x.id], x.id, st.links[x.id], mldAt, linkObj); }
    }

    lemma GroupView(t: M.SsidType)
      requires Rep()
      ensures |groups| == 3 && groups[GroupIndex(t)].typ == t && t in st.order
      ensures st.Order(t) == AddrsOf(groups[GroupIndex(t)].mlds)
      ensures forall m :: m in groups[GroupIndex(t)].mlds ==> HasMld(m) && st.Mld(m.addr).unit == m.unit
    {
      hide LinksRep, SsidsRep, AddrsRep;
      var g := groups[GroupIndex(t)];
      assert GroupShows(g, st.order[t], mldAt);
      forall m | m in g.mlds ensures HasMld(m) && st.Mld(m.addr).unit == m.unit {
        assert MldShows(m, m.addr, st.mlds[m.addr], linkAt, linkObj);
      }
    }

    // ---------- the routines ----------

    /** wld_mld_initMgr: an empty group per type. */
    constructor (ghost ssids: map<nat, Ssid>)
      requires forall s :: s in ssids ==> ssids[s].id == s && ssids[s].pMldLink == null
      ensures Valid() && st == M.INIT && ssidAt == ssids
    {
      var g0 := new MldGroup(M.UnknownType);
      var g1 := new MldGroup(M.ApType);
      var g2 := new MldGroup(M.EpType);
      groups := [g0, g1, g2];
      ssidAt := ssids;
      events := [];
      st, mldAt, linkAt, linkObj := M.INIT, map[], map[], map[];
      new;
      hide GroupsRep, MldsRep, LinksRep, SsidsRep, AddrsRep, W.OrderOk, W.MembersOk, W.AddrOk;
      W.InitOk();
      EmptyRep();
    }

    lemma EmptyRep()
      requires |groups| == 3 && groups[0].typ == M.UnknownType && groups[1].typ == M.ApType && groups[2].typ == M.EpType
      requires forall g :: g in groups ==> g.mlds == []
      requires st == M.INIT && events == [] && mldAt == map[] && linkAt == map[] && linkObj == map[]
      requires forall s :: s in ssidAt ==> ssidAt[s].id == s && ssidAt[s].pMldLink == null
      ensures Rep()
    {
      forall t: M.SsidType ensures t in st.order && groups[GroupIndex(t)].typ == t &&
        GroupShows(groups[GroupIndex(t)], st.order[t], mldAt) {
        match t case UnknownType => case ApType => case EpType =>
      }
    }

    /** The link's MLD is in the group for SSIDs with an access point, if its SSID has one, and
        for those with an endpoint, if its SSID only has that. */
    ghost predicate InOwnGroup(l: MldLink)
      reads l, l.ssid, l.pMld, if l.pMld == null then {} else {l.pMld.pGroup}
    {
      && l.pMld != null && l.pMld.pGroup != null
      && if l.ssid.hasAp then l.pMld.pGroup.typ == M.ApType else l.ssid.hasEp && l.pMld.pGroup.typ == M.EpType
    }

    /** s_isTypedLink. */
    method IsTypedLink(l: MldLink) returns (r: bool)
      requires Valid() && HasLink(l)
      ensures r == M.Typed(st, l.ssid.id, l.ssid.Env())
      ensures r <==> InOwnGroup(l)
    {
      hide GroupsRep, MldsRep, LinksRep, SsidsRep, AddrsRep, W.OrderOk, W.MembersOk, W.AddrOk;
      LinkView(l);
      if l.pMld != null { MldView(l.pMld); }
      var t := l.ssid.Type();
      r := t != M.UnknownType && l.pMld != null && l.pMld.pGroup != null && l.pMld.pGroup.typ == t;
    }

    /** wld_mld_isLinkEnabled. */
    method IsLinkEnabled(l: MldLink) returns (r: bool)
      requires Valid() && HasLink(l)
      ensures r == M.Enabled(st, l.ssid.id, l.ssid.Env())
      ensures r <==> InOwnGroup(l) && l.ssid.enable && l.ssid.rad != null && l.ssid.rad.enable
    {
      hide GroupsRep, MldsRep, LinksRep, SsidsRep, AddrsRep, W.OrderOk, W.MembersOk, W.AddrOk;
      r := IsTypedLink(l);
      r := r && l.ssid.rad != null && l.ssid.enable && l.ssid.rad.enable;
    }

    /** s_findMldInGroup. */
    method FindMldInGroup(t: M.SsidType, unit: int) returns (pMld: Mld?, pNextMld: Mld?)
      requires Valid() && unit >= 0
      ensures M.FindIn(st, st.Order(t), unit) == if pMld == null then None else Some(pMld.addr)
      ensures pMld != null ==> HasMld(pMld)
      ensures |groups| == 3
      ensures
        var ms := groups[GroupIndex(t)].mlds;
        var k := M.InsertPos(st, st.Order(t), unit);
        if pNextMld == null then k == |ms| else k < |ms| && ms[k] == pNextMld
    {
      hide GroupsRep, MldsRep, LinksRep, SsidsRep, AddrsRep, W.OrderOk, W.MembersOk, W.AddrOk, M.InsertPos, M.FindIn;
      GroupView(t);
      pMld, pNextMld := ScanMlds(groups[GroupIndex(t)].mlds, unit, st);
    }

    /** The second half of s_setMldInGroup: a new MLD goes before the next one, or to the end. */
    method NewMldInGroup(t: M.SsidType, unit: int, pNextMld: Mld?) returns (m: Mld)
      requires Valid() && unit >= 0 && |groups| == 3
      requires
        var ms := groups[GroupIndex(t)].mlds;
        var k := M.InsertPos(st, st.Order(t), unit);
        if pNextMld == null then k == |ms| else k < |ms| && ms[k] == pNextMld
      modifies this`st, this`mldAt, groups
      ensures Rep() && HasMld(m) && fresh(m) && m.addr == old(st).next && mldAt == old(mldAt)[m.addr := m]
      ensures st == M.CreateMld(old(st), t, unit)
    {
      hide GroupsRep, MldsRep, LinksRep, SsidsRep, AddrsRep, W.OrderOk, W.MembersOk, W.AddrOk, M.FindIn, M.InsertPos,
        InsertAt, NoDup, M.CreateMld, AddrsOf, IndexOf;
      GroupView(t);
      W.ListedExist(st, t);
      var ms := groups[GroupIndex(t)].mlds;
      ghost var k := M.InsertPos(st, st.Order(t), unit);
      ghost var st0 := st;
      m := AllocMld(t, unit);
      CreateMldSteps(st0, t, unit, ms, k, m);
      NewPlace(ms, k, m, pNextMld);
      WriteGroup(t, if pNextMld == null then ms + [m] else InsertAt(ms, IndexOf(ms, pNextMld), m));
    }

    /** s_setMldInGroup: the listed MLD with this unit, or a new one in its place. */
    method SetMldInGroup(t: M.SsidType, unit: int) returns (m: Mld)
      requires Valid() && unit >= 0
      modifies this`st, this`mldAt, groups
      ensures Valid() && HasMld(m)
      ensures
        match M.FindIn(old(st), old(st).Order(t), unit)
        case Some(a) => st == old(st) && mldAt == old(mldAt) && m.addr == a
        case None => st == M.CreateMld(old(st), t, unit) && m.addr == old(st).next
      ensures M.FindIn(old(st), old(st).Order(t), unit).None? ==> mldAt == old(mldAt)[m.addr := m] && fresh(m)
    {
      hide GroupsRep, MldsRep, LinksRep, SsidsRep, AddrsRep, W.OrderOk, W.MembersOk, W.AddrOk, M.FindIn, M.InsertPos,
        M.CreateMld;
      var pMld, pNextMld := FindMldInGroup(t, unit);
      if pMld != null {
        return pMld;
      }
      W.CreateMldOk(st, t, unit);
      m := NewMldInGroup(t, unit, pNextMld);
    }

    /** s_getTargetMld. */
    method GetTargetMld(x: Ssid, unit: int) returns (m: Mld?)
      requires Valid() && Knows(x)
      modifies this`st, this`mldAt, groups
      ensures Valid() && st == M.TargetMld(old(st), unit, x.Env()).0
      ensures M.TargetMld(old(st), unit, x.Env()).1 == if m == null then None else Some(m.addr)
      ensures m != null ==> HasMld(m)
      ensures m != null ==>
        mldAt == old(mldAt) || (mldAt == old(mldAt)[m.addr := m] && m.addr == old(st).next && fresh(m))
      ensures m == null ==> mldAt == old(mldAt)
      ensures m == null <==> unit < 0 || x.rad == null || !x.rad.supports11be
    {
      hide GroupsRep, MldsRep, LinksRep, SsidsRep, AddrsRep, W.OrderOk, W.MembersOk, W.AddrOk, M.FindIn, M.CreateMld;
      if unit < 0 || x.rad == null || !x.rad.supports11be {
        return null;
      }
      m := SetMldInGroup(x.Type(), unit);
    }

    /** wld_mld_saveLinkConfigured. */
    method SaveLinkConfigured(l: MldLink, wanted: bool) returns (ok: bool)
      requires Valid() && HasLink(l)
      modifies this`st, mldAt.Values, linkAt.Values
      ensures Valid() && ok
      ensures st == M.SaveConfigured(old(st), l.ssid.id, wanted, l.ssid.Env())
    {
      hide GroupsRep, MldsRep, LinksRep, SsidsRep, AddrsRep, W.OrderOk, W.MembersOk, W.AddrOk, M.Enabled, M.Relink;
      var enabled := IsLinkEnabled(l);
      var flag := wanted && enabled;
      LinkView(l);
      W.SaveConfiguredOk(st, l.ssid.id, wanted, l.ssid.Env());
      if l.configured == flag {
        return true;
      }
      DetachedIsReset(l, flag);
      ghost var st0 := st;
      var m := l.pMld;
      MldView(m);
      ListedLinks(l);
      WriteLink(l, l.linkId, flag, m);
      MldView(m);
      forall x | x in m.links && x != l ensures x.configured == st0.Link(x.ssid.id).conf {
        LinkView(x);
      }
      var links := Reposition(m.links, l, flag, st0);
      WriteMld(m, links, m.pPrimLink);
      ok := true;
    }

    /** A detached link has lost its flag and cannot get it back, so a flag that changes belongs to a member. */
    lemma DetachedIsReset(l: MldLink, flag: bool)
      requires Valid() && HasLink(l) && l.configured != flag
      requires flag ==> M.Enabled(st, l.ssid.id, l.ssid.Env())
      ensures l.pMld != null
    {
      hide GroupsRep, MldsRep, LinksRep, SsidsRep, AddrsRep, W.OrderOk, W.MembersOk;
      LinkView(l);
    }

    /** A link is listed by its MLD, among links of other SSIDs. */
    lemma ListedLinks(l: MldLink)
      requires Valid() && HasLink(l) && l.pMld != null
      ensures l in l.pMld.links && NoDup(SsidsOf(l.pMld.links))
      ensures forall x, y :: x in l.pMld.links && y in l.pMld.links && x.ssid.id == y.ssid.id ==> x == y
    {
      hide GroupsRep, MldsRep, LinksRep, SsidsRep, AddrsRep, W.OrderOk, W.MembersOk, W.AddrOk, NoDup;
      LinkView(l);
      MldView(l.pMld);
      W.HomeExists(st, l.ssid.id);
      var i := IndexOf(SsidsOf(l.pMld.links), l.ssid.id);
      assert l.pMld.links[i] in l.pMld.links;
    }

    /** wld_mld_setLinkConfigured. */
    method SetLinkConfigured(l: MldLink, flag: bool) returns (ok: bool)
      requires Valid() && HasLink(l) && l.pMld != null
      modifies this`st, this`events, mldAt.Values, linkAt.Values
      ensures Valid() && ok
      ensures st == M.SetConfigured(old(st), l.ssid.id, flag, l.ssid.Env())
    {
      hide GroupsRep, MldsRep, LinksRep, SsidsRep, AddrsRep, W.OrderOk, W.MembersOk, W.AddrOk, M.SaveConfigured,
        M.SetConfigured;
      LinkView(l);
      R.SetConfiguredAnnounces(st, l.ssid.id, flag, l.ssid.Env());
      ok := SaveLinkConfigured(l, flag);
      LinkView(l);
      var m := l.pMld;
      MldView(m);
      SendChangeEvent(M.Update, m.pGroup.typ, m.unit, l.ssid);
    }

    /** wld_mld_setLinkConfigured with `false`, on the SSID's link if it has one. */
    method UnconfigureLink(x: Ssid)
      requires Valid() && R.Complete(st) && Knows(x)
      modifies this`st, this`events, mldAt.Values, linkAt.Values
      ensures Valid() && R.Complete(st) && st == Q.Unconfigure(old(st), x.id)
    {
      hide GroupsRep, MldsRep, LinksRep, SsidsRep, AddrsRep, R.Complete, M.SetConfigured, Q.Unconfigure, W.WF;
      SsidView(x);
      Q.UnconfigureStep(st, x.id);
      if x.pMldLink != null {
        LinkedLink(x.pMldLink);
        Q.EnvDoesNotMatter(st, x.id, x.Env());
        var _ := SetLinkConfigured(x.pMldLink, false);
      } else {
        Q.NothingToUnconfigure(st, x.id);
      }
    }

    /** One loop of wld_rad_setAllMldLinksUnconfigured, over the SSIDs, if any, of some interfaces. */
    method UnconfigureLinks(xs: seq<Ssid?>)
      requires Valid() && R.Complete(st) && forall x: Ssid? :: x in xs && x != null ==> Knows(x)
      modifies this`st, this`events, mldAt.Values, linkAt.Values
      ensures Valid() && R.Complete(st) && st == Q.UnconfigureAll(old(st), IdsOf(xs))
    {
      hide GroupsRep, MldsRep, LinksRep, SsidsRep, AddrsRep, R.Complete, Q.Unconfigure, W.WF, Rep;
      ghost var st0 := st;
      for i := 0 to |xs|
        invariant Valid() && R.Complete(st) && st == Q.UnconfigureAll(st0, IdsOf(xs[..i]))
      {
        assert xs[..i + 1][..i] == xs[..i];
        var x := xs[i];
        assert x in xs;
        if x != null {
          NextId(st0, IdsOf(xs[..i]), x.id);
          UnconfigureLink(x);
        } else {
          assert IdsOf(xs[..i + 1]) == IdsOf(xs[..i]);
        }
      }
      assert xs[..|xs|] == xs;
    }

    /** wld_rad_setAllMldLinksUnconfigured: the access points of the radio, then its endpoints. */
    method SetAllMldLinksUnconfigured(aps: seq<Ssid?>, eps: seq<Ssid?>)
      requires Valid() && R.Complete(st) && forall x: Ssid? :: x in aps + eps && x != null ==> Knows(x)
      modifies this`st, this`events, mldAt.Values, linkAt.Values
      ensures Valid() && R.Complete(st) && st == Q.UnconfigureAll(old(st), IdsOf(aps) + IdsOf(eps))
    {
      hide GroupsRep, MldsRep, LinksRep, SsidsRep, AddrsRep, R.Complete, Q.UnconfigureAll, W.WF, Rep, IdsOf;
      forall x | x in aps ensures x in aps + eps {}
      forall x | x in eps ensures x in aps + eps {}
      Q.InTurn(st, IdsOf(aps), IdsOf(eps));
      UnconfigureLinks(aps);
      UnconfigureLinks(eps);
    }

    lemma LinkedLink(l: MldLink)
      requires Rep() && HasLink(l) && R.Complete(st)
      ensures l.pMld != null
    {
      hide GroupsRep, MldsRep, SsidsRep, AddrsRep, W.WF;
      LinkView(l);
    }

    /** wld_mld_setPrimaryLink. */
    method SetPrimaryLink(l: MldLink) returns (ok: bool)
      requires Valid() && HasLink(l)
      modifies this`st, mldAt.Values
      ensures Valid() && ok == M.Enabled(old(st), l.ssid.id, l.ssid.Env())
      ensures st == M.SetPrimary(old(st), l.ssid.id, l.ssid.Env())
    {
      hide GroupsRep, MldsRep, LinksRep, SsidsRep, AddrsRep, W.OrderOk, W.MembersOk, W.AddrOk;
      var enabled := IsLinkEnabled(l);
      LinkView(l);
      W.SetPrimaryOk(st, l.ssid.id, l.ssid.Env());
      if !enabled {
        return false;
      }
      var m := l.pMld;
      MldView(m);
      WriteMld(m, m.links, l);
      ok := true;
    }

    /** wld_mld_getPrimaryLink. */
    method GetPrimaryLink(l: MldLink) returns (r: MldLink?)
      requires Valid() && HasLink(l)
      ensures M.PrimaryOf(st, l.ssid.id, l.ssid.Env()) == if r == null then None else Some(r.ssid.id)
      ensures r != null ==> HasLink(r) && r.pMld == l.pMld && l.pMld != null && l.pMld.pPrimLink == r
    {
      hide GroupsRep, MldsRep, LinksRep, SsidsRep, AddrsRep, W.OrderOk, W.MembersOk, W.AddrOk, M.MemberAt;
      var typed := IsTypedLink(l);
      if !typed {
        return null;
      }
      LinkView(l);
      var m := l.pMld;
      MldView(m);
      W.ListedLink(st, m.addr);
      forall x | x in m.links
        ensures x.ssid.id in SsidsOf(m.links) && x.pMld == m
        ensures st.Link(x.ssid.id).addr == x.addr &&
          (m.pPrimLink != null && m.pPrimLink.addr == x.addr ==> m.pPrimLink == x) {
        LinkView(x);
        assert SsidsOf(m.links)[IndexOf(m.links, x)] == x.ssid.id;
      }
      r := FindLink(m.links, m.pPrimLink, st);
    }

    /** The second half of wld_mld_setLinkId: a different id is stored. */
    method StoreLinkId(l: MldLink, linkId: int)
      requires Valid() && HasLink(l) && l.linkId != linkId
      modifies this`st, mldAt.Values, linkAt.Values
      ensures Rep()
      ensures st == if linkId == M.NO_LINK_ID then M.ResetLinkId(old(st), l.ssid.id)
                    else old(st).WithLink(l.ssid.id, old(st).Link(l.ssid.id).(id := M.ToInt16(linkId)))
    {
      hide GroupsRep, MldsRep, LinksRep, SsidsRep, AddrsRep, W.OrderOk, W.MembersOk, W.AddrOk;
      LinkView(l);
      if linkId == M.NO_LINK_ID {
        DetachedHasNoId(l);
        var m := l.pMld;
        MldView(m);
        if m.pPrimLink == l {
          WriteMld(m, m.links, null);
        }
      }
      WriteLink(l, M.ToInt16(linkId), l.configured, l.pMld);
    }

    /** wld_mld_setLinkId. */
    method SetLinkId(l: MldLink, wanted: int)
      requires Valid() && HasLink(l)
      modifies this`st, mldAt.Values, linkAt.Values
      ensures Valid()
      ensures st == M.SetLinkId(old(st), l.ssid.id, wanted, l.ssid.Env())
    {
      hide GroupsRep, MldsRep, LinksRep, SsidsRep, AddrsRep, W.OrderOk, W.MembersOk, W.AddrOk, M.SaveConfigured,
        M.ResetLinkId, M.Typed, InOwnGroup;
      LinkView(l);
      W.SetLinkIdOk(st, l.ssid.id, wanted, l.ssid.Env());
      var typed := IsTypedLink(l);
      var linkId := if !typed && wanted != M.NO_LINK_ID then M.NO_LINK_ID else wanted;
      if linkId >= 0 {
        var _ := SaveLinkConfigured(l, true);
      }
      NothingToReset(st, l.ssid.id);
      PutLinkId(l, linkId);
    }

    method PutLinkId(l: MldLink, linkId: int)
      requires Valid() && HasLink(l)
      modifies this`st, mldAt.Values, linkAt.Values
      ensures Rep()
      ensures old(st).Link(l.ssid.id).id == linkId ==> st == old(st)
      ensures old(st).Link(l.ssid.id).id != linkId ==>
        st == if linkId == M.NO_LINK_ID then M.ResetLinkId(old(st), l.ssid.id)
              else old(st).WithLink(l.ssid.id, old(st).Link(l.ssid.id).(id := M.ToInt16(linkId)))
    {
      hide GroupsRep, MldsRep, LinksRep, SsidsRep, AddrsRep, W.OrderOk, W.MembersOk, W.AddrOk, M.ResetLinkId;
      LinkView(l);
      if l.linkId == linkId {
        return;
      }
      StoreLinkId(l, linkId);
    }

    lemma DetachedHasNoId(l: MldLink)
      requires Valid() && HasLink(l) && l.linkId != M.NO_LINK_ID
      ensures l.pMld != null
    {
      hide GroupsRep, MldsRep, LinksRep, SsidsRep, AddrsRep, W.OrderOk, W.MembersOk;
      LinkView(l);
    }

    /** s_deinitMld of an MLD without links. */
    method DeinitMld(m: Mld)
      requires Valid() && HasMld(m) && m.links == []
      modifies this`st, this`mldAt, groups, mldAt.Values
      ensures Rep()
      ensures mldAt == old(mldAt) - {m.addr}
      ensures
        var st0, t := old(st), old(st).Mld(m.addr).typ;
        st == st0.(mlds := st0.mlds - {m.addr}, order := st0.order[t := Remove(st0.Order(t), m.addr)])
    {
      hide GroupsRep, MldsRep, LinksRep, SsidsRep, AddrsRep, W.OrderOk, W.MembersOk, W.AddrOk;
      MldView(m);
      W.EmptyUnreferenced(st, m.addr);
      var t := m.pGroup.typ;
      GroupView(t);
      var ms := groups[GroupIndex(t)].mlds;
      RemoveAddr(ms, m);
      ghost var st0 := st;
      WriteGroup(t, Remove(ms, m));
      W.RemovedUnlisted(st0, m.addr, st);
      FreeMld(m);
    }

    /** The link leaves the list it is in. */
    method Unlist(l: MldLink)
      requires Valid() && HasLink(l) && l.linkId == M.NO_LINK_ID
      modifies this`st, mldAt.Values, linkAt.Values
      ensures Valid() && st == M.Detach(old(st), l.ssid.id)
      ensures l.pMld == null
    {
      hide GroupsRep, MldsRep, LinksRep, SsidsRep, AddrsRep, W.OrderOk, W.MembersOk, W.AddrOk;
      LinkView(l);
      W.DetachOk(st, l.ssid.id);
      var m := l.pMld;
      if m == null {
        WriteLink(l, M.NO_LINK_ID, false, null);
      } else {
        MldView(m);
        ListedLinks(l);
        RemoveSsid(m.links, l);
        WriteLink(l, M.NO_LINK_ID, false, null);
        MldView(m);
        WriteMld(m, Remove(m.links, l), m.pPrimLink);
      }
      LinkView(l);
    }

    /** An MLD whose last link was taken is destroyed, and its end announced. */
    method DropIfEmpty(m: Mld, x: Ssid)
      requires Valid() && HasMld(m)
      modifies this`st, this`mldAt, this`events, groups, mldAt.Values
      ensures Rep()
      ensures st == if old(st).Mld(m.addr).links == [] then M.DestroyMld(old(st), m.addr, x.id) else old(st)
      ensures mldAt == old(mldAt) || mldAt == old(mldAt) - {m.addr}
    {
      hide GroupsRep, MldsRep, LinksRep, SsidsRep, AddrsRep, W.OrderOk, W.MembersOk, W.AddrOk;
      MldView(m);
      if m.links == [] {
        var t, unit := m.pGroup.typ, m.unit;
        DeinitMld(m);
        SendChangeEvent(M.Del, t, unit, x);
      }
    }

    /** s_takeLink. */
    method TakeLink(l: MldLink)
      requires Valid() && HasLink(l)
      modifies this`st, this`mldAt, this`events, groups, mldAt.Values, linkAt.Values
      ensures Valid() && st == M.TakeLink(old(st), l.ssid.id)
      ensures forall a :: a in old(mldAt) && a in st.mlds ==> a in mldAt && mldAt[a] == old(mldAt)[a]
      ensures mldAt.Values <= old(mldAt.Values)
    {
      hide GroupsRep, MldsRep, LinksRep, SsidsRep, AddrsRep, W.OrderOk, W.MembersOk, W.AddrOk, M.ResetLinkId,
        M.TakeLink, M.Detach, M.SetLinkId, M.DestroyMld;
      LinkView(l);
      W.TakeLinkOk(st, l.ssid.id);
      ResetIsSetNone(st, l.ssid.id, l.ssid.Env());
      var m := l.pMld;
      TakeLinkSteps(st, l.ssid.id);
      SetLinkId(l, M.NO_LINK_ID);
      LinkView(l);
      Unlist(l);
      if m != null {
        DropIfEmpty(m, l.ssid);
      }
      KeysAgree();
    }

    lemma KeysAgree()
      requires Rep()
      ensures mldAt.Keys == st.mlds.Keys
    {
      hide GroupsRep, LinksRep, SsidsRep, AddrsRep;
    }

    /** s_deinitLink. */
    method DeinitLink(l: MldLink)
      requires Valid() && HasLink(l)
      modifies this`st, this`mldAt, this`linkAt, this`events, groups, mldAt.Values, linkAt.Values, l.ssid`pMldLink
      ensures Valid() && st == M.DeinitLink(old(st), l.ssid.id)
      ensures linkAt == old(linkAt) - {l.ssid.id}
      ensures forall a :: a in old(mldAt) && a in st.mlds ==> a in mldAt && mldAt[a] == old(mldAt)[a]
      ensures mldAt.Values <= old(mldAt.Values)
    {
      hide GroupsRep, MldsRep, LinksRep, SsidsRep, AddrsRep, W.OrderOk, W.MembersOk, W.AddrOk, M.TakeLink;
      ghost var s := l.ssid.id;
      LinkView(l);
      W.DeinitLinkOk(st, s);
      W.TakeLinkOk(st, s);
      TakeLink(l);
      W.DetachedUnlisted(st, s);
      FreeLink(l);
    }

    /** The end of wld_mld_registerLink: the link joins its MLD, and a first link announces it. */
    method AppendLink(m: Mld, l: MldLink, unit: int)
      requires Valid() && HasMld(m) && HasLink(l) && l.pMld == null
      modifies this`st, this`events, m, l
      ensures Valid() && st == M.Attach(old(st), l.ssid.id, m.addr, unit)
    {
      hide GroupsRep, MldsRep, LinksRep, SsidsRep, AddrsRep, W.OrderOk, W.MembersOk, W.AddrOk;
      LinkView(l);
      MldView(m);
      W.AttachOk(st, l.ssid.id, m.addr, unit);
      InsertAtEnd(m.links, l);
      InsertSsid(m.links, |m.links|, l);
      InsertAtEnd(SsidsOf(m.links), l.ssid.id);
      WriteLink(l, l.linkId, l.configured, m);
      MldView(m);
      WriteMld(m, m.links + [l], m.pPrimLink);
      MldView(m);
      if |m.links| == 1 {
        SendChangeEvent(M.Add, m.pGroup.typ, unit, l.ssid);
      }
    }

    /** The part of wld_mld_registerLink for a link that is to leave its MLD for another. */
    method MoveLink(l: MldLink, tgt: Mld, unit: int)
      requires Valid() && HasLink(l) && HasMld(tgt) && l.pMld != null && l.pMld != tgt
      modifies this`st, this`mldAt, this`events, groups, mldAt.Values, linkAt.Values
      ensures Valid() && HasLink(l) && l.ssid.id in st.links
      ensures st == M.Attach(M.TakeLink(old(st), l.ssid.id), l.ssid.id, tgt.addr, unit)
    {
      hide GroupsRep, MldsRep, LinksRep, SsidsRep, AddrsRep, W.OrderOk, W.MembersOk, W.AddrOk, M.TakeLink, M.Attach;
      LinkView(l);
      W.TakeLinkKeeps(st, l.ssid.id, tgt.addr);
      W.TakeLinkOk(st, l.ssid.id);
      KeysAgree();
      TakeLink(l);
      KeysAgree();
      LinkView(l);
      AppendLink(tgt, l, unit);
      LinkView(l);
    }

    /** The part of wld_mld_registerLink for a link found without an MLD. */
    method ReplaceLink(l: MldLink, tgt: Mld, unit: int) returns (r: MldLink)
      requires Valid() && HasLink(l) && HasMld(tgt) && l.pMld == null
      modifies this`st, this`mldAt, this`linkAt, this`linkObj, this`events, groups, mldAt.Values, linkAt.Values,
        l.ssid`pMldLink
      ensures Valid() && HasLink(r) && r.ssid == l.ssid && l.ssid.pMldLink == r && l.ssid.id in st.links
      ensures st == M.Attach(M.NewLink(M.DeinitLink(old(st), l.ssid.id), l.ssid.id), l.ssid.id, tgt.addr, unit)
    {
      hide GroupsRep, MldsRep, LinksRep, SsidsRep, AddrsRep, W.OrderOk, W.MembersOk, W.AddrOk, M.DeinitLink,
        M.NewLink, M.Attach;
      LinkView(l);
      W.TakeLinkKeeps(st, l.ssid.id, tgt.addr);
      W.DeinitLinkOk(st, l.ssid.id);
      KeysAgree();
      DeinitLink(l);
      KeysAgree();
      r := AppendNewLink(l.ssid, tgt, unit);
    }

    /** The part of wld_mld_registerLink for an SSID with a link. */
    method Retarget(l: MldLink, tgt: Mld?, unit: int) returns (r: MldLink?)
      requires Valid() && HasLink(l) && (tgt != null ==> HasMld(tgt))
      modifies this`st, this`mldAt, this`linkAt, this`linkObj, this`events, groups, mldAt.Values, linkAt.Values,
        l.ssid`pMldLink
      ensures Valid() && r == l.ssid.pMldLink && (r != null <==> l.ssid.id in st.links)
      ensures
        var s := l.ssid.id;
        st == if tgt == null then M.DeinitLink(old(st), s)
              else if old(st).Link(s).mld.None? then M.Attach(M.NewLink(M.DeinitLink(old(st), s), s), s, tgt.addr, unit)
              else if old(st).Link(s).mld == Some(tgt.addr) then old(st)
              else M.Attach(M.TakeLink(old(st), s), s, tgt.addr, unit)
    {
      hide GroupsRep, MldsRep, LinksRep, SsidsRep, AddrsRep, W.OrderOk, W.MembersOk, W.AddrOk, M.TakeLink,
        M.DeinitLink, M.NewLink, M.Attach;
      LinkView(l);
      if tgt == null {
        W.DeinitLinkOk(st, l.ssid.id);
        DeinitLink(l);
        SsidView(l.ssid);
        r := null;
      } else if l.pMld == null {
        r := ReplaceLink(l, tgt, unit);
      } else if l.pMld == tgt {
        r := l;
      } else {
        MoveLink(l, tgt, unit);
        LinkView(l);
        r := l;
      }
    }

    /** wld_mld_registerLink. */
    method RegisterLink(x: Ssid, unit: int) returns (l: MldLink?)
      requires Valid() && Knows(x)
      modifies this`st, this`mldAt, this`linkAt, this`linkObj, this`events, groups, mldAt.Values, linkAt.Values,
        x`pMldLink
      ensures Valid() && st == M.Register(old(st), x.id, unit, old(x.Env()))
      ensures l == x.pMldLink && (l != null <==> x.id in st.links)
    {
      hide GroupsRep, MldsRep, LinksRep, SsidsRep, AddrsRep, W.OrderOk, W.MembersOk, W.AddrOk, M.TargetMld,
        M.TakeLink, M.DeinitLink, M.NewLink, M.Attach, M.Register;
      W.TargetMldOk(st, unit, x.Env());
      RegisterSteps(st, x.id, unit, x.Env());
      var tgt := GetTargetMld(x, unit);
      SsidView(x);
      l := x.pMldLink;
      if l != null {
        l := Retarget(l, tgt, unit);
      } else if tgt != null {
        l := AppendNewLink(x, tgt, unit);
      }
    }

    /** The part of wld_mld_registerLink for an SSID without a link. */
    method AppendNewLink(x: Ssid, m: Mld, unit: int) returns (l: MldLink)
      requires Valid() && Knows(x) && HasMld(m) && x.id !in st.links
      modifies this`st, this`linkAt, this`linkObj, this`events, m, x`pMldLink
      ensures Valid() && HasLink(l) && l.ssid == x && x.pMldLink == l && x.id in st.links
      ensures st == M.Attach(M.NewLink(old(st), x.id), x.id, m.addr, unit)
    {
      hide GroupsRep, MldsRep, LinksRep, SsidsRep, AddrsRep, W.OrderOk, W.MembersOk, W.AddrOk, M.Attach;
      W.NewLinkOk(st, x.id);
      LinkKeysAgree();
      l := AllocLink(x);
      LinkView(l);
      AppendLink(m, l, unit);
      LinkView(l);
    }

    lemma LinkKeysAgree()
      requires Rep()
      ensures linkAt.Keys == st.links.Keys
    {
      hide GroupsRep, MldsRep, SsidsRep, AddrsRep;
    }

    /** wld_mld_unregisterLink. */
    method UnregisterLink(x: Ssid)
      requires Valid() && Knows(x)
      modifies this`st, this`mldAt, this`linkAt, this`events, groups, mldAt.Values, linkAt.Values, x`pMldLink
      ensures Valid() && st == M.Unregister(old(st), x.id)
      ensures x.pMldLink == null
    {
      hide GroupsRep, MldsRep, LinksRep, SsidsRep, AddrsRep, W.OrderOk, W.MembersOk, W.AddrOk, M.DeinitLink;
      SsidView(x);
      var l := x.pMldLink;
      if l != null {
        W.DeinitLinkOk(st, x.id);
        DeinitLink(l);
      }
      SsidView(x);
    }
  }

  /** The ids of the SSIDs there are. */
  function IdsOf(xs: seq<Ssid?>): seq<nat> {
    if xs == [] then [] else IdsOf(xs[..|xs| - 1]) + if xs[|xs| - 1] == null then [] else [xs[|xs| - 1].id]
  }

  lemma NextId(st: M.State, ss: seq<nat>, s: nat)
    ensures Q.UnconfigureAll(st, ss + [s]) == Q.Unconfigure(Q.UnconfigureAll(st, ss), s)
  {
    assert (ss + [s])[..|ss|] == ss;
  }

  /** The loop of s_findMldInGroup: the last MLD with the unit, and the first with a greater one. */
  method ScanMlds(ms: seq<Mld>, unit: int, ghost st: M.State) returns (pMld: Mld?, pNextMld: Mld?)
    requires forall m :: m in ms ==> st.Mld(m.addr).unit == m.unit
    ensures M.FindIn(st, AddrsOf(ms), unit) == if pMld == null then None else Some(pMld.addr)
    ensures pMld != null ==> pMld in ms
    ensures
      var k := M.InsertPos(st, AddrsOf(ms), unit);
      if pNextMld == null then k == |ms| else k < |ms| && ms[k] == pNextMld
  {
    ghost var xs := AddrsOf(ms);
    hide M.InsertPos, M.FindIn, AddrsOf;
    FindInNothing(st, unit);
    pMld, pNextMld := null, null;
    ghost var k := 0;
    assert xs[..0] == [];
    for i := 0 to |ms|
      invariant k <= i
      invariant M.FindIn(st, xs[..i], unit) == if pMld == null then None else Some(pMld.addr)
      invariant pMld != null ==> pMld in ms
      invariant forall j :: 0 <= j < k ==> st.Mld(xs[j]).unit <= unit
      invariant if pNextMld == null then k == i else k < i && ms[k] == pNextMld && st.Mld(xs[k]).unit > unit
    {
      var m := ms[i];
      assert m in ms && st.Mld(xs[i]).unit == m.unit;
      FindInStep(st, xs, i, unit);
      if m.unit == unit { pMld := m; }
      if m.unit > unit && pNextMld == null { pNextMld := m; }
      if pNextMld == null { k := k + 1; }
    }
    assert xs[..|ms|] == xs;
    InsertPosUnique(st, xs, unit, k);
  }

  lemma FindInNothing(st: M.State, unit: int)
    ensures M.FindIn(st, [], unit) == None
  {
  }

  lemma InsertAtEnd<T>(xs: seq<T>, x: T)
    ensures xs + [x] == InsertAt(xs, |xs|, x)
  {
  }

  lemma MembersOfInsertAt<T>(xs: seq<T>, k: nat, x: T)
    requires k <= |xs|
    ensures forall y :: y in InsertAt(xs, k, x) ==> y == x || y in xs
  {
  }

  /** A new MLD before the next one, or at the end, is at its place in the order of the units. */
  lemma NewPlace(ms: seq<Mld>, k: nat, m: Mld, pNextMld: Mld?)
    requires NoDup(AddrsOf(ms))
    requires if pNextMld == null then k == |ms| else k < |ms| && ms[k] == pNextMld
    ensures pNextMld != null ==> pNextMld in ms
    ensures (if pNextMld == null then ms + [m] else InsertAt(ms, IndexOf(ms, pNextMld), m)) == InsertAt(ms, k, m)
    ensures forall x :: x in InsertAt(ms, k, m) ==> x == m || x in ms
  {
    hide IndexOf, InsertAt, NoDup, AddrsOf;
    MembersOfInsertAt(ms, k, m);
    if pNextMld == null {
      InsertAtEnd(ms, m);
    } else {
      FirstIndex(ms, k);
    }
  }

  lemma InsertAddr(ms: seq<Mld>, k: nat, m: Mld)
    requires k <= |ms|
    ensures AddrsOf(InsertAt(ms, k, m)) == InsertAt(AddrsOf(ms), k, m.addr)
  {
  }

  lemma FirstIndex(ms: seq<Mld>, k: nat)
    requires NoDup(AddrsOf(ms)) && k < |ms|
    ensures IndexOf(ms, ms[k]) == k
  {
    assert AddrsOf(ms)[IndexOf(ms, ms[k])] == AddrsOf(ms)[k];
  }

  /** The reverse loop of wld_mld_saveLinkConfigured: the last configured link but `l`. */
  method LastConfigured(ls: seq<MldLink>, l: MldLink) returns (i: int)
    ensures LastConfiguredIs(ls, l, i)
  {
    i := |ls| - 1;
    while i >= 0 && (ls[i] == l || !ls[i].configured)
      invariant -1 <= i < |ls|
      invariant forall j :: i < j < |ls| && ls[j] != l ==> !ls[j].configured
    {
      i := i - 1;
    }
  }

  ghost predicate LastConfiguredIs(ls: seq<MldLink>, l: MldLink, i: int)
    reads ls
  {
    && -1 <= i < |ls|
    && (i >= 0 ==> ls[i] != l && ls[i].configured)
    && (forall j :: i < j < |ls| && ls[j] != l ==> !ls[j].configured)
  }

  /** The link is put behind the last configured link, to the front, or to the end. */
  method Reposition(ls: seq<MldLink>, l: MldLink, flag: bool, ghost st: M.State) returns (r: seq<MldLink>)
    requires l in ls && NoDup(SsidsOf(ls))
    requires forall x, y :: x in ls && y in ls && x.ssid.id == y.ssid.id ==> x == y
    requires forall x :: x in ls && x != l ==> x.configured == st.Link(x.ssid.id).conf
    ensures SsidsOf(r) == M.Relink(st, SsidsOf(ls), l.ssid.id, flag)
    ensures forall x :: x in r ==> x in ls
  {
    hide M.AfterLastConf, InsertAt, Remove, SsidsOf, IndexOf, NoDup, LastConfiguredIs;
    var rest := Remove(ls, l);
    RemoveSsid(ls, l);
    if !flag {
      InsertSsid(rest, |rest|, l);
      InsertAtEnd(rest, l);
      return rest + [l];
    }
    var i := LastConfigured(ls, l);
    RefPlace(ls, l, i, st);
    if i >= 0 {
      InsertSsid(rest, IndexOf(rest, ls[i]) + 1, l);
      return InsertAt(rest, IndexOf(rest, ls[i]) + 1, l);
    }
    InsertSsid(rest, 0, l);
    InsertAtFront(rest, l);
    r := [l] + rest;
  }

  lemma RefPlace(ls: seq<MldLink>, l: MldLink, i: int, st: M.State)
    requires l in ls && NoDup(SsidsOf(ls)) && LastConfiguredIs(ls, l, i)
    requires SsidsOf(Remove(ls, l)) == Remove(SsidsOf(ls), l.ssid.id)
    requires forall x :: x in ls && x != l ==> x.configured == st.Link(x.ssid.id).conf
    ensures
      var rest := Remove(ls, l);
      if i < 0 then M.AfterLastConf(st, SsidsOf(rest)) == 0
      else ls[i] in rest && M.AfterLastConf(st, SsidsOf(rest)) == IndexOf(rest, ls[i]) + 1
  {
    hide M.AfterLastConf, Remove, SsidsOf, IndexOf, NoDup;
    var rest := Remove(ls, l);
    Without(ls, l);
    if i < 0 {
      LastConfAt(st, rest, 0);
    } else {
      var k := if i < IndexOf(ls, l) then i else i - 1;
      assert rest[k] == ls[i];
      NoDupLinks(rest, ls, l);
      FirstLink(rest, k);
      LastConfAt(st, rest, k + 1);
    }
  }

  lemma LastConfAt(st: M.State, ls: seq<MldLink>, k: nat)
    requires forall x :: x in ls ==> x.configured == st.Link(x.ssid.id).conf
    requires k <= |ls| && (k > 0 ==> ls[k - 1].configured) && forall j :: k <= j < |ls| ==> !ls[j].configured
    ensures M.AfterLastConf(st, SsidsOf(ls)) == k
  {
    hide M.AfterLastConf;
    assert k > 0 ==> ls[k - 1] in ls;
    AfterLastConfUnique(st, SsidsOf(ls), k);
  }

  /** The nodes of the list without `l`, by their place in the list with it. */
  lemma Without(ls: seq<MldLink>, l: MldLink)
    requires l in ls && NoDup(SsidsOf(ls))
    ensures
      var rest, p := Remove(ls, l), IndexOf(ls, l);
      && |rest| == |ls| - 1
      && (forall j {:trigger rest[j]} :: 0 <= j < |rest| ==> rest[j] == ls[if j < p then j else j + 1])
      && (forall j :: 0 <= j < |ls| && j != p ==> ls[j] != l)
  {
    hide NoDup, SsidsOf, Remove;
    RemovedPlaces(ls, l);
    OnlyPlace(ls, l);
  }

  lemma OnlyPlace(ls: seq<MldLink>, l: MldLink)
    requires l in ls && NoDup(SsidsOf(ls))
    ensures forall j :: 0 <= j < |ls| && j != IndexOf(ls, l) ==> ls[j] != l
  {
    var p := IndexOf(ls, l);
    forall j | 0 <= j < |ls| && j != p ensures ls[j] != l {
      assert SsidsOf(ls)[j] != SsidsOf(ls)[p];
    }
  }

  lemma NoDupLinks(rest: seq<MldLink>, ls: seq<MldLink>, l: MldLink)
    requires NoDup(SsidsOf(ls)) && rest == Remove(ls, l)
    requires SsidsOf(rest) == Remove(SsidsOf(ls), l.ssid.id)
    ensures NoDup(SsidsOf(rest))
  {
    hide Remove, SsidsOf;
    RemoveNoDup(SsidsOf(ls), l.ssid.id);
  }

  lemma FirstLink(ls: seq<MldLink>, k: nat)
    requires NoDup(SsidsOf(ls)) && k < |ls|
    ensures IndexOf(ls, ls[k]) == k
  {
    assert SsidsOf(ls)[IndexOf(ls, ls[k])] == SsidsOf(ls)[k];
  }

  lemma InsertSsid(ls: seq<MldLink>, k: nat, l: MldLink)
    requires k <= |ls|
    ensures SsidsOf(InsertAt(ls, k, l)) == InsertAt(SsidsOf(ls), k, l.ssid.id)
  {
  }

  lemma InsertAtFront<T>(xs: seq<T>, x: T)
    ensures [x] + xs == InsertAt(xs, 0, x)
  {
  }

  /** The loop of wld_mld_getPrimaryLink. */
  method FindLink(ls: seq<MldLink>, p: MldLink?, ghost st: M.State) returns (r: MldLink?)
    requires forall x :: x in ls ==> st.Link(x.ssid.id).addr == x.addr && (p != null && p.addr == x.addr ==> p == x)
    ensures M.MemberAt(st, SsidsOf(ls), if p == null then None else Some(p.addr)) ==
            if r == null then None else Some(r.ssid.id)
    ensures r != null ==> r in ls && r == p
  {
    ghost var addr := if p == null then None else Some(p.addr);
    for i := 0 to |ls|
      invariant M.MemberAt(st, SsidsOf(ls), addr) == M.MemberAt(st, SsidsOf(ls)[i..], addr)
    {
      assert ls[i] in ls;
      assert SsidsOf(ls)[i..][0] == ls[i].ssid.id && SsidsOf(ls)[i..][1..] == SsidsOf(ls)[i + 1..];
      if p == ls[i] {
        return ls[i];
      }
    }
    r := null;
  }

  /** s_takeLink, step by step. */
  lemma TakeLinkSteps(st: M.State, s: nat)
    ensures
      var st1 := M.Detach(M.ResetLinkId(st, s), s);
      M.TakeLink(st, s) == match st.Link(s).mld
                           case None => st1
                           case Some(a) => if st1.Mld(a).links == [] then M.DestroyMld(st1, a, s) else st1
  {
    hide M.ResetLinkId, M.Detach, M.DestroyMld;
  }

  lemma NothingToReset(st: M.State, s: nat)
    ensures st.Link(s).id == M.NO_LINK_ID ==> M.ResetLinkId(st, s) == st
  {
  }

  /** Setting no id is resetting the id, and leaves the link without one. */
  lemma ResetIsSetNone(st: M.State, s: nat, env: M.Env)
    requires W.WF(st) && s in st.links
    ensures M.SetLinkId(st, s, M.NO_LINK_ID, env) == M.ResetLinkId(st, s)
    ensures W.WF(M.ResetLinkId(st, s))
    ensures M.ResetLinkId(st, s).Link(s) == st.Link(s).(id := M.NO_LINK_ID)
  {
    hide W.OrderOk, W.MembersOk, W.AddrOk, M.ResetLinkId;
    W.ResetLinkIdOk(st, s);
  }

  /** wld_mld_registerLink, by the state of the SSID's link and of the target. */
  lemma RegisterSteps(st: M.State, s: nat, unit: int, env: M.Env)
    requires M.TargetMld(st, unit, env).0.links == st.links
    ensures
      var (st1, tgt) := M.TargetMld(st, unit, env);
      M.Register(st, s, unit, env) ==
      if s !in st.links then if tgt.None? then st1 else M.Attach(M.NewLink(st1, s), s, tgt.value, unit)
      else if tgt.None? then M.DeinitLink(st1, s)
      else if st.Link(s).mld.None? then M.Attach(M.NewLink(M.DeinitLink(st1, s), s), s, tgt.value, unit)
      else if st.Link(s).mld == tgt then st1
      else M.Attach(M.TakeLink(st1, s), s, tgt.value, unit)
  {
    hide M.TargetMld, M.TakeLink, M.DeinitLink, M.NewLink, M.Attach;
  }

  /** s_setMldInGroup: a new MLD, then a longer list. */
  lemma CreateMldSteps(st: M.State, t: M.SsidType, unit: int, ms: seq<Mld>, k: nat, m: Mld)
    requires st.Order(t) == AddrsOf(ms) && k == M.InsertPos(st, AddrsOf(ms), unit) && m.addr == st.next
    ensures k <= |ms| && M.CreateMld(st, t, unit) ==
            st.(mlds := st.mlds[m.addr := M.MldRec(t, M.ToUint8(unit), [], None)], next := st.next + 1,
                order := st.order[t := AddrsOf(InsertAt(ms, k, m))])
  {
    hide M.InsertPos;
    InsertAddr(ms, k, m);
  }
}
