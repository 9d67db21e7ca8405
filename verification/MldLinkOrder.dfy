/** The order of the links inside an MLD: configured links first, each part in the order
    in which the links came to it. */
module MldLinkOrder {
  import opened Collections
  import opened MldModel
  import opened MldWellFormed
  import opened MldRuns

  /** The call gave the SSID's link another MLD, another flag, or made or freed it. */
  predicate Changed(st: State, r: State, s: nat) {
    || (s in st.links) != (s in r.links)
    || st.Link(s).mld != r.Link(s).mld
    || st.Link(s).conf != r.Link(s).conf
  }

  /** The number, in the run, of the last call that changed the SSID's link. */
  function LastChange(calls: seq<Call>, s: nat): (n: nat)
    ensures n <= |calls|
  {
    if calls == [] then 0
    else if Changed(Run(calls[..|calls| - 1]), Run(calls), s) then |calls|
    else LastChange(calls[..|calls| - 1], s)
  }

  /** `x` is configured and `y` is not, or their flags agree and `x` changed earlier. */
  predicate Before(calls: seq<Call>, x: nat, y: nat) {
    var cx, cy := Run(calls).Link(x).conf, Run(calls).Link(y).conf;
    (cx && !cy) || (cx == cy && LastChange(calls, x) < LastChange(calls, y))
  }

  ghost predicate Queued(calls: seq<Call>, xs: seq<nat>) {
    forall i, j :: 0 <= i < j < |xs| ==> Before(calls, xs[i], xs[j])
  }

  // ---------- where the link of a call ends up ----------

  /** The link stands just behind the last configured link when it is configured, and at the end when it is not. */
  ghost predicate Placed(st: State, xs: seq<nat>, s: nat) {
    var rest := Remove(xs, s);
    xs == InsertAt(rest, if st.Link(s).conf then AfterLastConf(st, rest) else |rest|, s)
  }

  /** The call left the link's flag and list alone, or gave the link its place. */
  ghost predicate StillOrPlaced(st: State, r: State, s: nat) {
    if Changed(st, r, s) then Placed(r, r.Home(s).links, s) else r.Home(s).links == st.Home(s).links
  }

  lemma {:induction false} AfterLastConfFrame(st: State, r: State, xs: seq<nat>)
    requires forall x :: x in xs ==> r.Link(x).conf == st.Link(x).conf
    ensures AfterLastConf(r, xs) == AfterLastConf(st, xs)
  {
    if xs != [] {
      assert xs[|xs| - 1] in xs;
      forall x | x in xs[..|xs| - 1] ensures x in xs {}
      AfterLastConfFrame(st, r, xs[..|xs| - 1]);
    }
  }

  lemma SaveConfiguredPlaces(st: State, s: nat, wanted: bool, env: Env)
    requires WF(st) && s in st.links
    ensures StillOrPlaced(st, SaveConfigured(st, s, wanted, env), s)
    ensures StillOrPlaced(st, SetConfigured(st, s, wanted, env), s)
  {
    hide OrderOk, MembersOk, AddrOk, InsertAt, Remove, AfterLastConf;
    HomeExists(st, s);
    var r := SaveConfigured(st, s, wanted, env);
    if r != st {
      var xs := st.Home(s).links;
      var rest := Remove(xs, s);
      RemoveNoDup(xs, s);
      RemoveRelinked(st, xs, s, r.Link(s).conf);
      AfterLastConfFrame(st, r, rest);
      AfterLastConfFrame(st, SetConfigured(st, s, wanted, env), rest);
    }
  }

  lemma ResetLinkIdPlaces(st: State, s: nat)
    requires WF(st) && s in st.links
    ensures StillOrPlaced(st, ResetLinkId(st, s), s)
  {
    hide OrderOk, MembersOk, AddrOk, Placed;
    HomeExists(st, s);
  }

  lemma PlacedFrame(st: State, r: State, xs: seq<nat>, s: nat)
    requires Placed(st, xs, s) && r.Link(s).conf == st.Link(s).conf
    requires forall x :: x in xs ==> r.Link(x).conf == st.Link(x).conf
    ensures Placed(r, xs, s)
  {
    hide InsertAt, AfterLastConf;
    AfterLastConfFrame(st, r, Remove(xs, s));
  }

  lemma SetLinkIdPlaces(st: State, s: nat, id: int, env: Env)
    requires WF(st) && s in st.links
    ensures StillOrPlaced(st, SetLinkId(st, s, id, env), s)
  {
    hide OrderOk, MembersOk, AddrOk, Placed, SaveConfigured, ResetLinkId;
    ResetLinkIdPlaces(st, s);
    SaveConfiguredPlaces(st, s, true, env);
    SaveConfiguredComplete(st, s, true, env);
    var st1 := if id >= 0 then SaveConfigured(st, s, true, env) else st;
    var r := st1.WithLink(s, st1.Link(s).(id := ToInt16(id)));
    if Placed(st1, st1.Home(s).links, s) {
      PlacedFrame(st1, r, r.Home(s).links, s);
    }
  }

  lemma AttachPlaces(st: State, s: nat, a: nat, unit: int)
    requires WF(st) && s in st.links && st.Link(s).mld.None? && a in st.mlds
    ensures Placed(Attach(st, s, a, unit), Attach(st, s, a, unit).Home(s).links, s)
    ensures s in Attach(st, s, a, unit).links && Attach(st, s, a, unit).Link(s).mld == Some(a)
  {
    var xs := st.Mld(a).links;
    assert NoDup(xs) && s !in xs;
    assert !st.Link(s).conf;
    hide OrderOk, MembersOk, AddrOk, Remove, AfterLastConf;
    assert xs + [s] == InsertAt(xs, |xs|, s);
    RemoveInserted(xs, |xs|, s);
  }

  lemma RegisterPlaces(st: State, s: nat, unit: int, env: Env)
    requires Complete(st)
    requires s in Register(st, s, unit, env).links
    ensures StillOrPlaced(st, Register(st, s, unit, env), s)
  {
    hide OrderOk, MembersOk, AddrOk, DeinitLink, TakeLink, Attach, Placed;
    var (st1, tgt) := TargetMld(st, unit, env);
    TargetMldOk(st, unit, env);
    TargetMldSameHome(st, unit, env, s);
    hide TargetMld;
    if s in st1.links {
      if tgt.None? {
        DeinitLinkOk(st1, s);
      } else if st1.Link(s).mld != tgt {
        TakeLinkOk(st1, s);
        TakeLinkKeeps(st1, s, tgt.value);
        AttachPlaces(TakeLink(st1, s), s, tgt.value, unit);
      }
    } else if tgt.Some? {
      NewLinkOk(st1, s);
      AttachPlaces(NewLink(st1, s), s, tgt.value, unit);
    }
  }

  lemma TargetMldSameHome(st: State, unit: int, env: Env, s: nat)
    requires WF(st)
    ensures TargetMld(st, unit, env).0.Home(s) == st.Home(s)
  {
    hide OrderOk, MembersOk, InsertAt, InsertPos;
    if s in st.links { HomeExists(st, s); }
  }

  lemma StepPlaces(st: State, c: Call)
    requires Complete(st) && c.ssid in Step(st, c).links
    ensures StillOrPlaced(st, Step(st, c), c.ssid)
  {
    hide OrderOk, MembersOk, AddrOk, Register, DeinitLink, SetLinkId, SetPrimary, SaveConfigured, SetConfigured, Placed;
    match c
    case RegisterCall(s, unit, env) => RegisterPlaces(st, s, unit, env);
    case UnregisterCall(s) => if s in st.links { DeinitLinkOk(st, s); }
    case SetLinkIdCall(s, id, env) => if s in st.links { SetLinkIdPlaces(st, s, id, env); }
    case SetPrimaryCall(s, env) => if s in st.links { SetPrimaryStill(st, s, env); }
    case SaveConfiguredCall(s, flag, env) => if s in st.links { SaveConfiguredPlaces(st, s, flag, env); }
    case SetConfiguredCall(s, flag, env) => if s in st.links { SaveConfiguredPlaces(st, s, flag, env); }
  }

  lemma SetPrimaryStill(st: State, s: nat, env: Env)
    requires WF(st) && s in st.links
    ensures StillOrPlaced(st, SetPrimary(st, s, env), s)
  {
    hide OrderOk, MembersOk, AddrOk, Placed;
    HomeExists(st, s);
  }

  // ---------- queues stay queues ----------

  lemma RemoveQueued(calls: seq<Call>, xs: seq<nat>, s: nat)
    requires Queued(calls, xs)
    ensures Queued(calls, Remove(xs, s))
  {
    hide Before, Remove, IndexOf;
    if s in xs {
      RemovedPlaces(xs, s);
      var ys, k := Remove(xs, s), IndexOf(xs, s);
      forall i, j | 0 <= i < j < |ys| ensures Before(calls, ys[i], ys[j]) {
        assert ys[i] == xs[if i < k then i else i + 1] && ys[j] == xs[if j < k then j else j + 1];
      }
    }
  }

  /** The next call is not about any listed link. */
  lemma NextQueued(calls: seq<Call>, c: Call, xs: seq<nat>)
    requires Queued(calls, xs) && c.ssid !in xs
    requires forall x :: x in xs ==> x in Run(calls).links
    ensures Queued(calls + [c], xs)
    ensures forall x :: x in xs ==> LastChange(calls + [c], x) <= |calls|
    ensures forall x :: x in xs ==> Run(calls + [c]).Link(x) == Run(calls).Link(x)
  {
    hide Run, LastChange, Before;
    forall x | x in xs
      ensures LastChange(calls + [c], x) == LastChange(calls, x) && Run(calls + [c]).Link(x) == Run(calls).Link(x) {
      OtherCall(calls, c, x);
    }
    forall i, j | 0 <= i < j < |xs| ensures Before(calls + [c], xs[i], xs[j]) {
      assert Before(calls, xs[i], xs[j]) && xs[i] in xs && xs[j] in xs;
      StillBefore(calls, calls + [c], xs[i], xs[j]);
    }
  }

  lemma OtherCall(calls: seq<Call>, c: Call, x: nat)
    requires c.ssid != x && x in Run(calls).links
    ensures LastChange(calls + [c], x) == LastChange(calls, x) && Run(calls + [c]).Link(x) == Run(calls).Link(x)
  {
    assert (calls + [c])[..|calls|] == calls;
    CallMovesOnlyItsLink(calls, c);
    hide Run;
  }

  lemma StillBefore(calls: seq<Call>, later: seq<Call>, x: nat, y: nat)
    requires Before(calls, x, y)
    requires LastChange(later, x) == LastChange(calls, x) && LastChange(later, y) == LastChange(calls, y)
    requires Run(later).Link(x) == Run(calls).Link(x) && Run(later).Link(y) == Run(calls).Link(y)
    ensures Before(later, x, y)
  {
    hide Run, LastChange;
  }

  lemma PlacedQueued(calls: seq<Call>, xs: seq<nat>, s: nat)
    requires Queued(calls, Remove(xs, s)) && Placed(Run(calls), xs, s)
    requires LastChange(calls, s) == |calls| && forall x :: x in Remove(xs, s) ==> LastChange(calls, x) < |calls|
    ensures Queued(calls, xs)
  {
    hide Run, LastChange, Remove, InsertAt;
    var st := Run(calls);
    var rest := Remove(xs, s);
    var k := if st.Link(s).conf then AfterLastConf(st, rest) else |rest|;
    assert xs == InsertAt(rest, k, s);
    assert k > 0 && st.Link(s).conf ==> st.Link(rest[k - 1]).conf;
    assert st.Link(s).conf ==> forall i :: k <= i < |rest| ==> !st.Link(rest[i]).conf;
    hide AfterLastConf;
    forall i | 0 <= i < |rest|
      ensures if i < k then Before(calls, rest[i], s) else Before(calls, s, rest[i]) {
      assert rest[i] in rest;
      if i < k - 1 { assert Before(calls, rest[i], rest[k - 1]); }
    }
    hide Before;
    forall i, j | 0 <= i < j < |xs| ensures Before(calls, xs[i], xs[j]) {
      if i != k { assert xs[i] == rest[if i < k then i else i - 1]; }
      if j != k { assert xs[j] == rest[if j < k then j else j - 1]; }
    }
  }

  /** The members an MLD keeps were listed in the same order before. */
  lemma KeptMembers(st: State, r: State, s: nat, a: nat)
    requires WF(st) && WF(r) && OthersKept(st, r, s)
    requires a in r.mlds && Remove(r.mlds[a].links, s) != []
    ensures a in st.mlds && Remove(st.mlds[a].links, s) == Remove(r.mlds[a].links, s)
  {
    hide OrderOk, AddrOk, MembersOk, Remove;
    ListedLink(r, a);
    RemoveNoDup(r.mlds[a].links, s);
    var x := Remove(r.mlds[a].links, s)[0];
    assert x in Remove(r.mlds[a].links, s) && x in r.mlds[a].links;
    HomeExists(st, x);
    assert x in Remove(st.mlds[a].links, s);
    assert MldKept(st, r, s, a);
  }

  lemma NextMldQueued(calls: seq<Call>, c: Call, a: nat)
    requires forall b :: b in Run(calls).mlds ==> Queued(calls, Run(calls).mlds[b].links)
    requires a in Run(calls + [c]).mlds
    ensures Queued(calls + [c], Run(calls + [c]).mlds[a].links)
  {
    hide Queued, Placed, Remove, OrderOk, AddrOk, MembersOk, OthersKept;
    var calls' := calls + [c];
    assert calls'[..|calls|] == calls;
    var st, r := Run(calls), Run(calls');
    assert r == Step(st, c);
    hide Run, Step;
    var s := c.ssid;
    RunComplete(calls);
    RunComplete(calls');
    CallMovesOnlyItsLink(calls, c);
    var xs := r.mlds[a].links;
    var rest := Remove(xs, s);
    ListedLink(r, a);
    RemoveNoDup(xs, s);
    EmptyQueued(calls);
    if rest != [] {
      KeptMembers(st, r, s, a);
      RemoveQueued(calls, st.mlds[a].links, s);
      ListedLink(st, a);
    }
    NextQueued(calls, c, rest);
    if s in xs {
      StepPlaces(st, c);
      if Changed(st, r, s) {
        LastChangeNow(calls, c);
        PlacedQueued(calls', xs, s);
      } else {
        HomeExists(st, s);
        ListedLink(st, a);
        StillQueued(calls, c, xs);
      }
    }
  }

  lemma LastChangeNow(calls: seq<Call>, c: Call)
    requires Changed(Run(calls), Run(calls + [c]), c.ssid)
    ensures LastChange(calls + [c], c.ssid) == |calls + [c]|
  {
    assert (calls + [c])[..|calls|] == calls;
  }

  lemma EmptyQueued(calls: seq<Call>)
    ensures Queued(calls, [])
  {
  }

  /** The call changed no link of this list. */
  lemma StillQueued(calls: seq<Call>, c: Call, xs: seq<nat>)
    requires Queued(calls, xs) && !Changed(Run(calls), Run(calls + [c]), c.ssid)
    requires forall x :: x in xs ==> x in Run(calls).links
    ensures Queued(calls + [c], xs)
  {
    assert (calls + [c])[..|calls|] == calls;
    CallMovesOnlyItsLink(calls, c);
    hide Run;
    forall x | x in xs
      ensures LastChange(calls + [c], x) == LastChange(calls, x) &&
        Run(calls + [c]).Link(x).conf == Run(calls).Link(x).conf {
    }
  }

  /** In every reachable store, every MLD lists its configured links first, in the order in
      which they became configured, and then the others, in the order in which they were
      registered or lost the flag. */
  lemma {:induction false} LinksAreQueued(calls: seq<Call>, a: nat)
    requires a in Run(calls).mlds
    ensures Queued(calls, Run(calls).mlds[a].links)
    decreases |calls|
  {
    if calls != [] {
      var prev := calls[..|calls| - 1];
      assert calls == prev + [calls[|calls| - 1]];
      forall b | b in Run(prev).mlds ensures Queued(prev, Run(prev).mlds[b].links) {
        LinksAreQueued(prev, b);
      }
      hide Run, Queued;
      NextMldQueued(prev, calls[|calls| - 1], a);
    }
  }
}
