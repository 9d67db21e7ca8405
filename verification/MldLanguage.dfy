/** The events of each call, and exactly when a call keeps the events of every type and unit in (ADD UPDATE* DEL)*. */
module MldLanguage {
  import opened Collections
  import opened MldModel
  import opened MldWellFormed
  import opened MldRuns
  import opened MldRegistry
  import opened MldEvents
  import opened MldOverflow

  // ---------- the events of one call ----------

  /** Taking the link out of its list announces the end of an MLD that held nothing else. */
  function TakeEvents(st: State, s: nat): seq<Event> {
    if s in st.links && st.Home(s).links == [s] then [Event(Del, st.Home(s).typ, st.Home(s).unit, s)] else []
  }

  /** The events a call emits: at most a DEL and then an ADD, or one UPDATE. */
  function Emits(st: State, c: Call): seq<Event> {
    match c
    case RegisterCall(s, unit, env) =>
      if unit < 0 || !env.be then TakeEvents(st, s)
      else
        (match FindIn(st, st.Order(env.typ), unit)
         case Some(a) => if st.Link(s).mld == Some(a) then [] else TakeEvents(st, s)
         case None => TakeEvents(st, s) + [Event(Add, env.typ, unit, s)])
    case UnregisterCall(s) => TakeEvents(st, s)
    case SetConfiguredCall(s, _, _) =>
      if s in st.links then [Event(Update, st.Home(s).typ, st.Home(s).unit, s)] else []
    case _ => []
  }

  lemma TakeLinkEmits(st: State, s: nat)
    requires WF(st) && s in st.links && st.Link(s).mld.Some?
    ensures TakeLink(st, s).events == st.events + TakeEvents(st, s)
    ensures DeinitLink(st, s).events == st.events + TakeEvents(st, s)
  {
    hide OrderOk, MembersOk, AddrOk, TakeLink, Remove;
    HomeExists(st, s);
    TakeLinkShape(st, s);
    RemoveOnly(st.Home(s).links, s);
  }

  lemma AttachToListed(st: State, s: nat, a: nat, unit: int)
    requires st.Mld(a).links != []
    ensures Attach(st, s, a, unit).events == st.events && Attach(NewLink(st, s), s, a, unit).events == st.events
  {
  }

  lemma RegisterFoundEmits(st: State, s: nat, unit: int, env: Env, a: nat)
    requires Complete(st) && unit >= 0 && env.be && FindIn(st, st.Order(env.typ), unit) == Some(a)
    ensures Register(st, s, unit, env).events == st.events + Emits(st, RegisterCall(s, unit, env))
  {
    hide OrderOk, MembersOk, AddrOk, FindIn, TakeLink, Attach, NewLink, DeinitLink, TakeEvents;
    assert TargetMld(st, unit, env) == (st, Some(a));
    ListedExist(st, env.typ);
    assert a in st.mlds && st.mlds[a].links != [];
    if s in st.links {
      TakeLinkEmits(st, s);
      if st.Link(s).mld != Some(a) {
        TakeLinkKeeps(st, s, a);
        AttachToListed(TakeLink(st, s), s, a, unit);
      }
    } else {
      AttachToListed(st, s, a, unit);
      assert TakeEvents(st, s) == [] by { NoLinkNoEvents(st, s); }
    }
  }

  lemma NoLinkNoEvents(st: State, s: nat)
    requires s !in st.links
    ensures TakeEvents(st, s) == []
  {
  }

  lemma CreatedEvents(st: State, s: nat, typ: SsidType, unit: int)
    requires Complete(st)
    ensures
      var st1 := CreateMld(st, typ, unit);
      WF(st1) && st1.events == st.events && TakeEvents(st1, s) == TakeEvents(st, s)
  {
    hide OrderOk, MembersOk, InsertAt, InsertPos;
    CreateMldOk(st, typ, unit);
    if s in st.links { CreatedHome(st, s, typ, unit); }
  }

  lemma RegisterNewEmits(st: State, s: nat, unit: int, env: Env)
    requires Complete(st) && unit >= 0 && env.be && FindIn(st, st.Order(env.typ), unit).None?
    ensures Register(st, s, unit, env).events == st.events + Emits(st, RegisterCall(s, unit, env))
  {
    hide OrderOk, MembersOk, AddrOk, TakeLink, Attach, FindIn, CreateMld, Register, TakeEvents;
    RegisterToNew(st, s, unit, env);
    NewMldEmpty(st, env.typ, unit);
    var st1 := CreateMld(st, env.typ, unit);
    CreatedEvents(st, s, env.typ, unit);
    if s in st.links {
      CreatedHome(st, s, env.typ, unit);
      TakeLinkEmits(st1, s);
      TakeLinkKeeps(st1, s, st.next);
      AttachToEmpty(TakeLink(st1, s), s, st.next, unit);
    } else {
      NoLinkNoEvents(st, s);
      AttachToEmpty(NewLink(st1, s), s, st.next, unit);
    }
  }

  lemma RegisterNoneEmits(st: State, s: nat, unit: int, env: Env)
    requires Complete(st) && (unit < 0 || !env.be)
    ensures Register(st, s, unit, env).events == st.events + TakeEvents(st, s)
  {
    hide OrderOk, MembersOk, AddrOk, DeinitLink, TakeEvents;
    if s in st.links { TakeLinkEmits(st, s); } else { NoLinkNoEvents(st, s); }
  }

  lemma StepEmits(st: State, c: Call)
    requires Complete(st)
    ensures Step(st, c).events == st.events + Emits(st, c)
  {
    hide OrderOk, MembersOk, AddrOk, Register, DeinitLink, SetLinkId, SetPrimary, SaveConfigured, FindIn;
    match c
    case RegisterCall(s, unit, env) =>
      if unit < 0 || !env.be {
        RegisterNoneEmits(st, s, unit, env);
      } else {
        match FindIn(st, st.Order(env.typ), unit)
        case Some(a) => RegisterFoundEmits(st, s, unit, env, a);
        case None => RegisterNewEmits(st, s, unit, env);
      }
    case UnregisterCall(s) => if s in st.links { TakeLinkEmits(st, s); }
    case SetLinkIdCall(s, id, env) => if s in st.links { SetLinkIdComplete(st, s, id, env); }
    case SetPrimaryCall(s, env) => if s in st.links { SetPrimaryComplete(st, s, env); }
    case SaveConfiguredCall(s, flag, env) => if s in st.links { SaveConfiguredComplete(st, s, flag, env); }
    case SetConfiguredCall(s, flag, env) => if s in st.links { SaveConfiguredComplete(st, s, flag, env); }
  }

  // ---------- the language ----------

  /** The events of every type and unit are a prefix of (ADD UPDATE* DEL)*. */
  ghost predicate Spoken(events: seq<Event>) {
    forall key :: AddUpdatesDel(Kinds(events, key))
  }

  /** The event continues the language: an ADD of what is absent, anything else of what is present. */
  predicate Continues(events: seq<Event>, e: Event) {
    PhaseAfter(events, Key(e.typ, e.unit)) == if e.kind == Add then Absent else Present
  }

  predicate AllContinue(events: seq<Event>, es: seq<Event>)
    decreases |es|
  {
    es == [] || (Continues(events, es[0]) && AllContinue(events + [es[0]], es[1..]))
  }

  ghost predicate NeverBroken(events: seq<Event>) {
    forall key :: PhaseAfter(events, key) != Broken
  }

  lemma SpokenExactly(events: seq<Event>)
    ensures Spoken(events) <==> NeverBroken(events)
  {
    hide PhaseAfter, Kinds, AddUpdatesDel;
    forall key ensures PhaseAfter(events, key) != Broken <==> AddUpdatesDel(Kinds(events, key)) {
      AcceptedKinds(events, key);
    }
  }

  lemma OneContinues(events: seq<Event>, e: Event)
    requires NeverBroken(events)
    ensures NeverBroken(events + [e]) <==> Continues(events, e)
  {
    hide PhaseAfter;
    forall key ensures PhaseAfter(events + [e], key) != Broken <==> Key(e.typ, e.unit) != key || Continues(events, e) {
      PhaseStep(events, e, key);
      assert PhaseAfter(events, key) != Broken;
    }
    assert PhaseAfter(events + [e], Key(e.typ, e.unit)) != Broken <==> Continues(events, e);
  }

  /** What is broken stays broken. */
  lemma {:induction false} BrokenStays(events: seq<Event>, es: seq<Event>)
    requires NeverBroken(events + es)
    ensures NeverBroken(events)
  {
    hide PhaseAfter;
    if es == [] {
      assert events + es == events;
    } else {
      var n := |es| - 1;
      assert events + es == (events + es[..n]) + [es[n]];
      forall key ensures PhaseAfter(events + es[..n], key) != Broken {
        PhaseStep(events + es[..n], es[n], key);
        assert PhaseAfter(events + es, key) != Broken;
      }
      BrokenStays(events, es[..n]);
    }
  }

  lemma {:induction false} AllContinueExactly(events: seq<Event>, es: seq<Event>)
    requires NeverBroken(events)
    ensures NeverBroken(events + es) <==> AllContinue(events, es)
    decreases |es|
  {
    hide NeverBroken, Continues;
    if es == [] {
      assert events + es == events;
    } else {
      assert events + es == (events + [es[0]]) + es[1..];
      OneContinues(events, es[0]);
      if NeverBroken(events + [es[0]]) {
        AllContinueExactly(events + [es[0]], es[1..]);
      } else if NeverBroken(events + es) {
        BrokenStays(events + [es[0]], es[1..]);
      }
    }
  }

  /** An MLD that ends with the link's leaving was announced, and not ended since. */
  predicate EndsInTurn(events: seq<Event>, st: State, s: nat) {
    s in st.links && st.Home(s).links == [s] ==> PhaseAfter(events, Key(st.Home(s).typ, st.Home(s).unit)) == Present
  }

  /** What the call does to each type and unit fits what the events so far have said of it:
      an MLD that it ends or updates is announced, and one that it makes is not. */
  predicate InTurn(events: seq<Event>, st: State, c: Call) {
    match c
    case RegisterCall(s, unit, env) => RegistersInTurn(events, st, s, unit, env)
    case UnregisterCall(s) => EndsInTurn(events, st, s)
    case SetConfiguredCall(s, _, _) =>
      s in st.links ==> PhaseAfter(events, Key(st.Home(s).typ, st.Home(s).unit)) == Present
    case _ => true
  }

  predicate RegistersInTurn(events: seq<Event>, st: State, s: nat, unit: int, env: Env) {
    if unit < 0 || !env.be then EndsInTurn(events, st, s)
    else
      match FindIn(st, st.Order(env.typ), unit)
      case Some(a) => st.Link(s).mld == Some(a) || EndsInTurn(events, st, s)
      case None => EndsInTurn(events, st, s) && PhaseAfter(events, Key(env.typ, unit)) == Absent
  }

  lemma NoneContinue(events: seq<Event>)
    ensures AllContinue(events, [])
  {
  }

  lemma LastContinues(events: seq<Event>, e: Event)
    ensures AllContinue(events, [e]) <==> Continues(events, e)
  {
    assert [e][1..] == [];
  }

  lemma TakeContinues(events: seq<Event>, st: State, s: nat)
    ensures AllContinue(events, TakeEvents(st, s)) <==> EndsInTurn(events, st, s)
  {
    if s in st.links { LastContinues(events, Event(Del, st.Home(s).typ, st.Home(s).unit, s)); }
    hide PhaseAfter;
  }

  /** A type and unit that the lookup misses are not those of the link's own MLD. */
  lemma MissedIsNotHome(st: State, s: nat, typ: SsidType, unit: int)
    requires Complete(st) && s in st.links && FindIn(st, st.Order(typ), unit).None?
    ensures Key(st.Home(s).typ, st.Home(s).unit) != Key(typ, unit)
  {
    HomeExists(st, s);
    assert st.Link(s).mld.value in st.Order(st.Home(s).typ);
    hide FindIn, MembersOk, AddrOk;
  }

  /** A DEL and then an ADD for another type and unit. */
  lemma TwoContinue(events: seq<Event>, d: Event, e: Event)
    requires Key(d.typ, d.unit) != Key(e.typ, e.unit)
    ensures AllContinue(events, [d] + [e]) <==> Continues(events, d) && Continues(events, e)
  {
    assert ([d] + [e])[1..] == [e];
    LastContinues(events + [d], e);
    PhaseStep(events, d, Key(e.typ, e.unit));
    hide PhaseAfter;
  }

  lemma NewContinues(events: seq<Event>, st: State, s: nat, unit: int, env: Env)
    requires Complete(st) && unit >= 0 && env.be && FindIn(st, st.Order(env.typ), unit).None?
    ensures AllContinue(events, Emits(st, RegisterCall(s, unit, env))) <==> RegistersInTurn(events, st, s, unit, env)
  {
    var e := Event(Add, env.typ, unit, s);
    LastContinues(events, e);
    if s in st.links && st.Home(s).links == [s] {
      MissedIsNotHome(st, s, env.typ, unit);
      TwoContinue(events, Event(Del, st.Home(s).typ, st.Home(s).unit, s), e);
    } else {
      assert [] + [e] == [e];
    }
    hide PhaseAfter, AllContinue, FindIn, Complete;
  }

  lemma EmitsInTurn(events: seq<Event>, st: State, c: Call)
    requires Complete(st)
    ensures AllContinue(events, Emits(st, c)) <==> InTurn(events, st, c)
  {
    hide Complete, PhaseAfter, AllContinue, FindIn, TakeEvents, EndsInTurn;
    NoneContinue(events);
    TakeContinues(events, st, c.ssid);
    match c
    case RegisterCall(s, unit, env) =>
      if unit >= 0 && env.be && FindIn(st, st.Order(env.typ), unit).None? { NewContinues(events, st, s, unit, env); }
    case SetConfiguredCall(s, _, _) => LastContinues(events, Event(Update, st.Home(s).typ, st.Home(s).unit, s));
    case _ =>
  }

  /** From events in the language, whatever units there were, a call leads to events in the
      language exactly when it comes in turn: the type and unit of an MLD that it ends or
      updates have an open ADD, and those of an MLD that it makes have none. */
  lemma CallKeepsLanguageExactly(calls: seq<Call>, c: Call)
    requires Spoken(Run(calls).events)
    ensures Spoken(Run(calls + [c]).events) <==> InTurn(Run(calls).events, Run(calls), c)
  {
    assert (calls + [c])[..|calls|] == calls;
    assert Run(calls + [c]) == Step(Run(calls), c);
    RunComplete(calls);
    hide Run, Step, Complete, Emits, Spoken, NeverBroken, AllContinue, InTurn;
    StepEmits(Run(calls), c);
    SpokenExactly(Run(calls).events);
    SpokenExactly(Run(calls + [c]).events);
    AllContinueExactly(Run(calls).events, Emits(Run(calls), c));
    EmitsInTurn(Run(calls).events, Run(calls), c);
  }

  /** Events that fell out of the language never come back to it. */
  lemma SpokenBefore(calls: seq<Call>, c: Call)
    requires Spoken(Run(calls + [c]).events)
    ensures Spoken(Run(calls).events)
  {
    assert (calls + [c])[..|calls|] == calls;
    assert Run(calls + [c]) == Step(Run(calls), c);
    RunComplete(calls);
    hide Run, Step, Complete, Emits, Spoken;
    StepEmits(Run(calls), c);
    SpokenExactly(Run(calls).events);
    SpokenExactly(Run(calls + [c]).events);
    BrokenStays(Run(calls).events, Emits(Run(calls), c));
  }

  /** The call at this place of the run comes in turn. */
  ghost predicate InTurnAt(calls: seq<Call>, i: nat)
    requires i < |calls|
  {
    InTurn(Run(calls[..i]).events, Run(calls[..i]), calls[i])
  }

  /** The events of a run, of units of any size, are in the language if and only if every call
      of it comes in turn. */
  lemma {:induction false} RunKeepsLanguageExactly(calls: seq<Call>)
    ensures Spoken(Run(calls).events) <==> forall i :: 0 <= i < |calls| ==> InTurnAt(calls, i)
  {
    hide Spoken, InTurn;
    if calls == [] {
      assert Spoken(Run(calls).events) by { NothingSaid(); }
    } else {
      hide Run;
      var n := |calls| - 1;
      var prev, c := calls[..n], calls[n];
      assert calls == prev + [c];
      RunKeepsLanguageExactly(prev);
      forall i | 0 <= i < n ensures InTurnAt(prev, i) <==> InTurnAt(calls, i) {
        assert prev[..i] == calls[..i];
      }
      if Spoken(Run(prev).events) {
        CallKeepsLanguageExactly(prev, c);
        assert InTurnAt(calls, n) <==> Spoken(Run(calls).events);
      } else if Spoken(Run(calls).events) {
        SpokenBefore(prev, c);
      }
    }
  }

  lemma NothingSaid()
    ensures Spoken([])
  {
    SpokenExactly([]);
  }
}
