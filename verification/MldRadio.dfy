/** The reset of all links of a radio: every one becomes unconfigured, one after the other. */
module MldRadio {
  import opened Collections
  import opened MldModel
  import opened MldWellFormed
  import opened MldRuns

  const ANY_ENV := Env(UnknownType, false, false)

  /** wld_mld_setLinkConfigured with `false`, on the SSID's link if it has one. */
  function Unconfigure(st: State, s: nat): State {
    if s in st.links then SetConfigured(st, s, false, ANY_ENV) else st
  }

  /** What the call reads outside the manager does not matter for `false`. */
  lemma EnvDoesNotMatter(st: State, s: nat, env: Env)
    requires s in st.links
    ensures SetConfigured(st, s, false, env) == Unconfigure(st, s)
  {
  }

  lemma NothingToUnconfigure(st: State, s: nat)
    requires s !in st.links
    ensures Unconfigure(st, s) == st
  {
  }

  /** wld_rad_setAllMldLinksUnconfigured, for the SSIDs of the radio. */
  function UnconfigureAll(st: State, ss: seq<nat>): State {
    if ss == [] then st else Unconfigure(UnconfigureAll(st, ss[..|ss| - 1]), ss[|ss| - 1])
  }

  lemma {:induction false} InTurn(st: State, ss: seq<nat>, ts: seq<nat>)
    ensures UnconfigureAll(st, ss + ts) == UnconfigureAll(UnconfigureAll(st, ss), ts)
  {
    hide Unconfigure;
    if ts == [] {
      assert ss + ts == ss;
    } else {
      var n := |ts| - 1;
      assert (ss + ts)[..|ss + ts| - 1] == ss + ts[..n];
      InTurn(st, ss, ts[..n]);
    }
  }

  /** One UPDATE for each link, naming its MLD. */
  function Updates(st: State, ss: seq<nat>): seq<Event> {
    if ss == [] then []
    else
      var s := ss[|ss| - 1];
      Updates(st, ss[..|ss| - 1]) + if s in st.links then [Event(Update, st.Home(s).typ, st.Home(s).unit, s)] else []
  }

  /** The listed links of other SSIDs, in order. */
  function Others(xs: seq<nat>, ss: seq<nat>): seq<nat> {
    if xs == [] then [] else Others(xs[..|xs| - 1], ss) + if xs[|xs| - 1] in ss then [] else [xs[|xs| - 1]]
  }

  lemma {:induction false} OthersAppend(xs: seq<nat>, ys: seq<nat>, ss: seq<nat>)
    ensures Others(xs + ys, ss) == Others(xs, ss) + Others(ys, ss)
  {
    if ys == [] {
      assert xs + ys == xs;
    } else {
      var n := |ys| - 1;
      assert (xs + ys)[..|xs + ys| - 1] == xs + ys[..n];
      OthersAppend(xs, ys[..n], ss);
    }
  }

  lemma OthersRemove(xs: seq<nat>, s: nat, ss: seq<nat>)
    requires s in ss
    ensures Others(Remove(xs, s), ss) == Others(xs, ss)
  {
    hide Others, IndexOf;
    if s in xs {
      var k := IndexOf(xs, s);
      OthersWithout(xs[..k], s, xs[k + 1..], ss);
      assert xs == xs[..k] + ([s] + xs[k + 1..]);
      assert Remove(xs, s) == xs[..k] + xs[k + 1..];
    }
  }

  lemma OthersWithout(before: seq<nat>, s: nat, after: seq<nat>, ss: seq<nat>)
    requires s in ss
    ensures Others(before + after, ss) == Others(before + ([s] + after), ss)
  {
    OneNotOther(s, ss);
    hide Others;
    OthersAppend(before, after, ss);
    OthersAppend(before, [s] + after, ss);
    OthersAppend([s], after, ss);
  }

  lemma OneNotOther(s: nat, ss: seq<nat>)
    requires s in ss
    ensures Others([s], ss) == []
  {
    assert [s][..0] == [];
  }

  /** What one call leaves of the links, the lists and the events. */
  lemma UnconfigureStep(st: State, s: nat)
    requires Complete(st)
    ensures
      var r := Unconfigure(st, s);
      && Complete(r) && SameHomes(st, r)
      && (forall x :: x in st.links ==> r.links[x] == if x == s then st.links[x].(conf := false) else st.links[x])
      && (forall a :: a in st.mlds ==> Remove(r.mlds[a].links, s) == Remove(st.mlds[a].links, s))
      && r.events == st.events + if s in st.links then [Event(Update, st.Home(s).typ, st.Home(s).unit, s)] else []
  {
    if s in st.links {
      UnconfigureComplete(st, s);
      UnconfigureLists(st, s);
    }
  }

  lemma UnconfigureComplete(st: State, s: nat)
    requires Complete(st) && s in st.links
    ensures Complete(Unconfigure(st, s)) && SameHomes(st, Unconfigure(st, s))
    ensures Unconfigure(st, s).events == st.events + [Event(Update, st.Home(s).typ, st.Home(s).unit, s)]
  {
    hide OrderOk, MembersOk, AddrOk, SaveConfigured;
    StepComplete(st, SetConfiguredCall(s, false, ANY_ENV));
    SaveConfiguredComplete(st, s, false, ANY_ENV);
  }

  lemma UnconfigureLists(st: State, s: nat)
    requires Complete(st) && s in st.links
    ensures
      var r := Unconfigure(st, s);
      && r.mlds.Keys == st.mlds.Keys && r.links.Keys == st.links.Keys
      && (forall x :: x in st.links ==> r.links[x] == if x == s then st.links[x].(conf := false) else st.links[x])
      && (forall a :: a in st.mlds ==> Remove(r.mlds[a].links, s) == Remove(st.mlds[a].links, s))
  {
    hide OrderOk, MembersOk, AddrOk, Relink, Remove;
    HomeExists(st, s);
    RemoveRelinked(st, st.Home(s).links, s, false);
  }

  /** The same homes, seen from one SSID. */
  lemma HomesSame(st: State, r: State, s: nat)
    requires Complete(st) && SameHomes(st, r) && s in st.links
    ensures r.Home(s).typ == st.Home(s).typ && r.Home(s).unit == st.Home(s).unit
  {
    hide OrderOk, AddrOk;
    HomeExists(st, s);
  }

  ghost predicate Reset(st: State, r: State, ss: seq<nat>, all: seq<nat>) {
    && SameHomes(st, r)
    && (forall x :: x in st.links ==> r.links[x] == if x in ss then st.links[x].(conf := false) else st.links[x])
    && (forall a :: a in st.mlds ==> Others(r.mlds[a].links, all) == Others(st.mlds[a].links, all))
  }

  lemma ResetStep(st: State, st1: State, r: State, ss: seq<nat>, s: nat, all: seq<nat>)
    requires Reset(st, st1, ss, all) && s in all && SameHomes(st1, r)
    requires forall x :: x in st1.links ==> r.links[x] == if x == s then st1.links[x].(conf := false) else st1.links[x]
    requires forall a :: a in st1.mlds ==> Remove(r.mlds[a].links, s) == Remove(st1.mlds[a].links, s)
    ensures Reset(st, r, ss + [s], all)
  {
    hide Others, Remove;
    forall a | a in st.mlds ensures Others(r.mlds[a].links, all) == Others(st.mlds[a].links, all) {
      OthersRemove(r.mlds[a].links, s, all);
      OthersRemove(st1.mlds[a].links, s, all);
    }
  }

  lemma {:induction false} ResetUpTo(st: State, ss: seq<nat>, all: seq<nat>)
    requires Complete(st) && forall s :: s in ss ==> s in all
    ensures Complete(UnconfigureAll(st, ss)) && Reset(st, UnconfigureAll(st, ss), ss, all)
    ensures UnconfigureAll(st, ss).events == st.events + Updates(st, ss)
  {
    hide Complete, Unconfigure, Others, Remove;
    if ss != [] {
      var n := |ss| - 1;
      var s, st1 := ss[n], UnconfigureAll(st, ss[..n]);
      assert ss == ss[..n] + [s] && s in ss;
      ResetUpTo(st, ss[..n], all);
      UnconfigureStep(st1, s);
      ResetStep(st, st1, Unconfigure(st1, s), ss[..n], s, all);
      if s in st.links { HomesSame(st, st1, s); }
    }
  }

  /** Afterwards no link of the radio is configured, no other link has changed in any way, and
      in every MLD the other links stand in the order in which they stood; every link of the
      radio, and no other, was announced by one UPDATE, in turn. */
  lemma AllUnconfigured(st: State, ss: seq<nat>)
    requires Complete(st)
    ensures
      var r := UnconfigureAll(st, ss);
      && Complete(r)
      && (forall x :: x in st.links <==> x in r.links)
      && (forall x :: x in st.links && x in ss ==> r.links[x] == st.links[x].(conf := false))
      && (forall x :: x in st.links && x !in ss ==> r.links[x] == st.links[x])
      && (forall a :: a in st.mlds ==> a in r.mlds && Others(r.mlds[a].links, ss) == Others(st.mlds[a].links, ss))
      && r.events == st.events + Updates(st, ss)
  {
    hide Complete, UnconfigureAll, Others, Updates;
    ResetUpTo(st, ss, ss);
  }
}
