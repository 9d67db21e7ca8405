/**
  The store of the MLD link manager as a value: MLDs by address, the per-type
  lists of MLDs, and one optional link per SSID. Each function is the effect of
  one routine of src/wld_mld.c on that store; MldManager.dfy proves that the
  object graph, updated in place, computes exactly these functions.
 */
module MldModel {
  import opened Collections

  datatype SsidType = UnknownType | ApType | EpType

  const NO_LINK_ID := -1

  /** What one call reads outside the manager: the type given by the SSID's hooks,
      whether SSID and radio are both enabled, and whether the radio supports 11be. */
  datatype Env = Env(typ: SsidType, up: bool, be: bool)

  datatype LinkRec = LinkRec(addr: nat, mld: Option<nat>, id: int, conf: bool)

  /** `links` lists SSIDs; `prim` is the address of a link, alive or not. */
  datatype MldRec = MldRec(typ: SsidType, unit: nat, links: seq<nat>, prim: Option<nat>)

  datatype EventKind = Add | Update | Del

  datatype Event = Event(kind: EventKind, typ: SsidType, unit: int, ssid: nat)

  /** `next` is the first address never handed out. The lookups are total: outside
      the store they give an empty record, which well-formed stores never ask for. */
  datatype State = State(
    mlds: map<nat, MldRec>,
    order: map<SsidType, seq<nat>>,
    links: map<nat, LinkRec>,
    next: nat,
    events: seq<Event>)
  {
    function Mld(a: nat): MldRec {
      if a in mlds then mlds[a] else MldRec(UnknownType, 0, [], None)
    }

    function Link(s: nat): LinkRec {
      if s in links then links[s] else LinkRec(0, None, NO_LINK_ID, false)
    }

    function Order(t: SsidType): seq<nat> {
      if t in order then order[t] else []
    }

    /** The MLD that holds the SSID's link. */
    function Home(s: nat): MldRec {
      match Link(s).mld
      case Some(a) => Mld(a)
      case None => MldRec(UnknownType, 0, [], None)
    }

    function WithMld(a: nat, m: MldRec): State {
      this.(mlds := mlds[a := m])
    }

    function WithLink(s: nat, l: LinkRec): State {
      this.(links := links[s := l])
    }

    function WithEvent(e: Event): State {
      this.(events := events + [e])
    }
  }

  const INIT := State(map[], map[UnknownType := [], ApType := [], EpType := []], map[], 0, [])

  /** The `uint8_t` field that stores an MLD's unit. */
  function ToUint8(unit: int): (r: nat)
    ensures r < 256
    ensures 0 <= unit < 256 ==> r == unit
  {
    unit % 256
  }

  /** The `int16_t` field that stores a link id. */
  function ToInt16(id: int): (r: int)
    ensures -32768 <= r < 32768
    ensures -32768 <= id < 32768 ==> r == id
  {
    (id + 32768) % 65536 - 32768
  }

  // ---------- lists of MLDs ----------

  /** The last listed MLD whose unit field equals `unit`; like the scan, it does not stop at a match. */
  function FindIn(st: State, xs: seq<nat>, unit: int): (r: Option<nat>)
    ensures r.Some? ==> r.value in xs && st.Mld(r.value).unit == unit
    ensures r.None? ==> forall a :: a in xs ==> st.Mld(a).unit != unit
  {
    if xs == [] then None
    else if st.Mld(xs[|xs| - 1]).unit == unit then Some(xs[|xs| - 1])
    else
      assert forall a :: a in xs ==> a in xs[..|xs| - 1] || a == xs[|xs| - 1];
      FindIn(st, xs[..|xs| - 1], unit)
  }

  /** Position of the first listed MLD with a greater unit, or the end of the list. */
  function InsertPos(st: State, xs: seq<nat>, unit: int): (k: nat)
    ensures k <= |xs|
    ensures forall i :: 0 <= i < k ==> st.Mld(xs[i]).unit <= unit
    ensures k < |xs| ==> st.Mld(xs[k]).unit > unit
  {
    if xs == [] || st.Mld(xs[0]).unit > unit then 0
    else
      var k := 1 + InsertPos(st, xs[1..], unit);
      assert forall i :: 1 <= i < k ==> xs[i] == xs[1..][i - 1];
      k
  }

  /** s_setMldInGroup for a unit that is not listed yet. */
  function CreateMld(st: State, typ: SsidType, unit: int): State {
    var xs := st.Order(typ);
    st.(mlds := st.mlds[st.next := MldRec(typ, ToUint8(unit), [], None)],
        order := st.order[typ := InsertAt(xs, InsertPos(st, xs, unit), st.next)],
        next := st.next + 1)
  }

  /** s_getTargetMld: the MLD a registration aims at, created on demand. */
  function TargetMld(st: State, unit: int, env: Env): (State, Option<nat>) {
    if unit < 0 || !env.be then (st, None)
    else
      match FindIn(st, st.Order(env.typ), unit)
      case Some(a) => (st, Some(a))
      case None => (CreateMld(st, env.typ, unit), Some(st.next))
  }

  // ---------- link attributes ----------

  /** s_isTypedLink: the link sits in the group of its SSID's type. */
  predicate Typed(st: State, s: nat, env: Env) {
    env.typ != UnknownType && st.Link(s).mld.Some? && st.Home(s).typ == env.typ
  }

  /** wld_mld_isLinkEnabled. */
  predicate Enabled(st: State, s: nat, env: Env) {
    Typed(st, s, env) && env.up
  }

  /** Position just behind the last configured link of a list. */
  function AfterLastConf(st: State, xs: seq<nat>): (k: nat)
    ensures k <= |xs|
    ensures forall i :: k <= i < |xs| ==> !st.Link(xs[i]).conf
    ensures k > 0 ==> st.Link(xs[k - 1]).conf
  {
    if xs == [] then 0
    else if st.Link(xs[|xs| - 1]).conf then |xs|
    else AfterLastConf(st, xs[..|xs| - 1])
  }

  /** The list after the link's flag has become `flag` and the link was given its new place. */
  function Relink(st: State, xs: seq<nat>, s: nat, flag: bool): (r: seq<nat>) {
    var rest := Remove(xs, s);
    InsertAt(rest, if flag then AfterLastConf(st, rest) else |rest|, s)
  }

  /** wld_mld_saveLinkConfigured. */
  function SaveConfigured(st: State, s: nat, wanted: bool, env: Env): State {
    var flag := wanted && Enabled(st, s, env);
    var l := st.Link(s);
    if l.conf == flag || l.mld.None? then st
    else
      var m := st.Home(s);
      st.WithLink(s, l.(conf := flag)).WithMld(l.mld.value, m.(links := Relink(st, m.links, s, flag)))
  }

  /** wld_mld_setLinkConfigured: the same, and an update notification. */
  function SetConfigured(st: State, s: nat, wanted: bool, env: Env): State {
    SaveConfigured(st, s, wanted, env).WithEvent(Event(Update, st.Home(s).typ, st.Home(s).unit, s))
  }

  /** The link forgets its id; an MLD whose primary link it was forgets that too. */
  function ResetLinkId(st: State, s: nat): State {
    var l := st.Link(s);
    if l.id == NO_LINK_ID || l.mld.None? then st
    else
      var st1 := st.WithLink(s, l.(id := NO_LINK_ID));
      if st.Home(s).prim == Some(l.addr) then st1.WithMld(l.mld.value, st.Home(s).(prim := None)) else st1
  }

  /** wld_mld_setLinkId. */
  function SetLinkId(st: State, s: nat, wanted: int, env: Env): State {
    if wanted == NO_LINK_ID || !Typed(st, s, env) then ResetLinkId(st, s)
    else
      var st1 := if wanted >= 0 then SaveConfigured(st, s, true, env) else st;
      if st1.Link(s).id == wanted then st1
      else st1.WithLink(s, st1.Link(s).(id := ToInt16(wanted)))
  }

  /** wld_mld_setPrimaryLink: only an enabled link may become primary. */
  function SetPrimary(st: State, s: nat, env: Env): State {
    if Enabled(st, s, env) then st.WithMld(st.Link(s).mld.value, st.Home(s).(prim := Some(st.Link(s).addr))) else st
  }

  // ---------- moving links ----------

  /** s_deinitMld of an MLD without links, and the notification that follows it. */
  function DestroyMld(st: State, a: nat, s: nat): State {
    var m := st.Mld(a);
    st.(mlds := st.mlds - {a}, order := st.order[m.typ := Remove(st.Order(m.typ), a)])
      .WithEvent(Event(Del, m.typ, m.unit, s))
  }

  /** The link leaves its list and becomes detached and unconfigured. */
  function Detach(st: State, s: nat): State {
    var l := st.Link(s);
    var st1 := st.WithLink(s, l.(mld := None, conf := false));
    match l.mld
    case None => st1
    case Some(a) => st1.WithMld(a, st.Mld(a).(links := Remove(st.Mld(a).links, s)))
  }

  /** s_takeLink. */
  function TakeLink(st: State, s: nat): State {
    var st1 := Detach(ResetLinkId(st, s), s);
    match st.Link(s).mld
    case None => st1
    case Some(a) => if st1.Mld(a).links == [] then DestroyMld(st1, a, s) else st1
  }

  function FreeLink(st: State, s: nat): State {
    st.(links := st.links - {s})
  }

  /** s_deinitLink. */
  function DeinitLink(st: State, s: nat): State {
    FreeLink(TakeLink(st, s), s)
  }

  function NewLink(st: State, s: nat): State {
    st.WithLink(s, LinkRec(st.next, None, NO_LINK_ID, false)).(next := st.next + 1)
  }

  /** A detached link is appended to an MLD; the first one announces the MLD. */
  function Attach(st: State, s: nat, a: nat, unit: int): State {
    var m := st.Mld(a).(links := st.Mld(a).links + [s]);
    var st1 := st.WithLink(s, st.Link(s).(mld := Some(a))).WithMld(a, m);
    if |m.links| == 1 then st1.WithEvent(Event(Add, m.typ, unit, s)) else st1
  }

  // ---------- entry points ----------

  /** wld_mld_registerLink. */
  function Register(st: State, s: nat, unit: int, env: Env): State {
    var (st1, tgt) := TargetMld(st, unit, env);
    if s in st1.links then
      if tgt.None? then DeinitLink(st1, s)
      else if st1.Link(s).mld == tgt then st1
      else if st1.Link(s).mld.Some? then Attach(TakeLink(st1, s), s, tgt.value, unit)
      else Attach(NewLink(DeinitLink(st1, s), s), s, tgt.value, unit)
    else if tgt.None? then st1
    else Attach(NewLink(st1, s), s, tgt.value, unit)
  }

  /** wld_mld_unregisterLink. */
  function Unregister(st: State, s: nat): State {
    if s in st.links then DeinitLink(st, s) else st
  }

  /** wld_mld_getPrimaryLink: the SSID of the primary link of the caller's MLD. */
  function PrimaryOf(st: State, s: nat, env: Env): Option<nat> {
    if Typed(st, s, env) then MemberAt(st, st.Home(s).links, st.Home(s).prim) else None
  }

  /** The first listed link that lives at the given address. */
  function MemberAt(st: State, xs: seq<nat>, addr: Option<nat>): (r: Option<nat>)
    ensures r.Some? ==> r.value in xs && Some(st.Link(r.value).addr) == addr
    ensures r.None? ==> forall x :: x in xs ==> Some(st.Link(x).addr) != addr
  {
    if xs == [] then None
    else if Some(st.Link(xs[0]).addr) == addr then Some(xs[0])
    else MemberAt(st, xs[1..], addr)
  }
}
