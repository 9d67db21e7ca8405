/** What each association counter counts: the outcomes of its kind since the last reset. */
module StationOutcomes {
  import opened StationTable
  import opened StationRuns

  datatype Outcome = Connection | Failure | SecurityFailure | Disconnection | Nothing

  /** How an event ends for an active station, by what has become of it before. */
  function EventOutcome(s: Sta, e: Event): Outcome {
    match e
    case Connects(_) => if s.authed then Nothing else Connection
    case Drops(failSec, _) => DropOutcome(s, failSec)
    case FailsSecurity => if s.secFail then Nothing else SecurityFailure
  }

  /** An authenticated station is disconnected; any other has failed, in one way or the other,
      unless it had failed security already. */
  function DropOutcome(s: Sta, failSec: bool): Outcome {
    if s.authed then Disconnection
    else if s.secFail then Nothing
    else if failSec then SecurityFailure
    else Failure
  }

  predicate ActiveAt(st: ApState, i: nat) {
    i < |st.tab| && st.tab[i].active
  }

  function OutcomeOf(st: ApState, c: Call): Outcome {
    match c
    case SuccessCall(i, now) => if i < |st.tab| then EventOutcome(st.tab[i], Connects(now)) else Nothing
    case DropCall(i, failSec, now) => if ActiveAt(st, i) then EventOutcome(st.tab[i], Drops(failSec, now)) else Nothing
    case SecFailCall(i) => if ActiveAt(st, i) then EventOutcome(st.tab[i], FailsSecurity) else Nothing
    case GuestCall(s, e) => EventOutcome(s, e)
    case _ => Nothing
  }

  /** The number of outcomes of a kind in the run since its counters were last reset. */
  function NrOf(states: seq<ApState>, calls: seq<Call>, n: nat, o: Outcome): nat
    requires n <= |calls| <= |states|
  {
    if n == 0 || calls[n - 1].ResetCall? then 0
    else NrOf(states, calls, n - 1, o) + if OutcomeOf(states[n - 1], calls[n - 1]) == o then 1 else 0
  }

  /** The call makes an inactive station active by an attempt. */
  predicate Attempts(st: ApState, c: Call) {
    (c.TryCall? || c.SuccessCall?) && Syncs(st, c)
  }

  function NrAttempts(states: seq<ApState>, calls: seq<Call>, n: nat): nat
    requires n <= |calls| <= |states|
  {
    if n == 0 then 0 else NrAttempts(states, calls, n - 1) + if Attempts(states[n - 1], calls[n - 1]) then 1 else 0
  }

  /** The counters after a call, from those before it and the outcome. */
  ghost predicate Counts(st: ApState, c: Call, r: ApState) {
    var o := OutcomeOf(st, c);
    && r.attempts == st.attempts + B(Attempts(st, c))
    && if c.ResetCall? then r.success == r.fail == r.failSecurity == r.disconnect == 0
       else
         && r.success == st.success + B(o == Connection)
         && r.fail == st.fail + B(o == Failure)
         && r.failSecurity == st.failSecurity + B(o == SecurityFailure)
         && r.disconnect == st.disconnect + B(o == Disconnection)
  }

  lemma NextCounts(st: ApState, c: Call, r: ApState)
    requires Next(st, c, r)
    ensures Counts(st, c, r)
  {
    hide AfterCleanup, Finalized, Drop, CountIf;
  }

  predicate Tallies(states: seq<ApState>, calls: seq<Call>, n: nat)
    requires n <= |calls| < |states|
  {
    var st := states[n];
    && st.success == NrOf(states, calls, n, Connection)
    && st.fail == NrOf(states, calls, n, Failure)
    && st.failSecurity == NrOf(states, calls, n, SecurityFailure)
    && st.disconnect == NrOf(states, calls, n, Disconnection)
    && st.attempts == NrAttempts(states, calls, n)
  }

  lemma TalliesNext(states: seq<ApState>, calls: seq<Call>, n: nat)
    requires 0 < n <= |calls| < |states| && Tallies(states, calls, n - 1)
    requires Counts(states[n - 1], calls[n - 1], states[n])
    ensures Tallies(states, calls, n)
  {
    hide OutcomeOf, Attempts;
  }

  /** In every state of every run each association counter is the number of outcomes of its
      kind since the last reset, and the attempts are the activations of the whole run. */
  lemma {:induction false} CountersCountOutcomes(states: seq<ApState>, calls: seq<Call>, n: nat)
    requires IsRun(states, calls) && states[0] == INIT_AP && n <= |calls|
    ensures Tallies(states, calls, n)
  {
    if n > 0 {
      CountersCountOutcomes(states, calls, n - 1);
      hide Next, Counts, Tallies;
      assert Next(states[n - 1], calls[n - 1], states[n - 1 + 1]);
      NextCounts(states[n - 1], calls[n - 1], states[n]);
      TalliesNext(states, calls, n);
    }
  }
}
