/**
  The side bar and the history store together: a session is a sequence of
  events (a new lookup snapshot, a click on a history entry, a `clear`
  dispatched by a consumer) applied to the store's value. The session also
  remembers the snapshot the form's effect last ran on, because the effect
  runs again only when its dependencies change.
 */
module Session {
  import opened SearchHistorySlice
  import opened LeftSideBar

  datatype Event = Observe(snapshot: Snapshot) | SelectEntry(index: nat) | ClearAll

  /** The store's value, and the snapshot of the effect's last run (none
      before the form has mounted). */
  datatype SessionState = SessionState(value: HistoryValue, lastSeen: Option<Snapshot>)

  /** The application right after start-up, before the form's first render. */
  const Mounted := SessionState(InitialValue, None)

  /** The effect runs for snapshot `s`: on the first render, and whenever a
      dependency differs from the last run's. */
  predicate Fires(st: SessionState, s: Snapshot) {
    st.lastSeen.None? || DepsOf(st.lastSeen.value) != DepsOf(s)
  }

  /** The session after one event. A snapshot whose dependencies did not
      change does nothing; a click on the disabled head, or on an index the
      list does not show, dispatches nothing; clicks and `clear` leave the
      effect's dependencies as they were. */
  function Step(st: SessionState, e: Event): (r: SessionState)
    ensures e.Observe? && Fires(st, e.snapshot) ==>
              r == SessionState(EffectStep(st.value, e.snapshot), Some(e.snapshot))
    ensures e.Observe? && !Fires(st, e.snapshot) ==> r == st
    ensures e.SelectEntry? && 0 < e.index < |st.value.history| ==>
              r == SessionState(WithEntry(st.value, st.value.history[e.index]), st.lastSeen)
    ensures e.SelectEntry? && !(0 < e.index < |st.value.history|) ==> r == st
    ensures e.ClearAll? ==> r == SessionState(InitialValue, st.lastSeen)
  {
    match e
    case Observe(s) =>
      if Fires(st, s) then SessionState(EffectStep(st.value, s), Some(s)) else st
    case SelectEntry(i) =>
      if i < |st.value.history| then
        match HistoryClickAction(st.value.history, i)
        case None => st
        case Some(a) => st.(value := Reduce(st.value, a))
      else st
    case ClearAll => st.(value := Reduce(st.value, Clear))
  }

  function Run(st: SessionState, es: seq<Event>): SessionState
    decreases |es|
  {
    if es == [] then st else Run(Step(st, es[0]), es[1..])
  }

  /** What every reachable value satisfies: names are unique, the success view
      always finds a head entry, and `initial` only goes with an empty list. */
  predicate Coherent(v: HistoryValue) {
    && UniqueNames(v.history)
    && (v.status == Success ==> |v.history| > 0)
    && (v.status == Initial ==> v.history == [])
  }

  lemma StepKeepsCoherent(st: SessionState, e: Event)
    requires Coherent(st.value)
    ensures Coherent(Step(st, e).value)
  {
    match e
    case Observe(s) =>
      if Fires(st, s) && !IsLoading(s) && s.error.None? && s.data.Some? {
        AddEntryKeepsUnique(st.value, s.data.value);
      }
    case SelectEntry(i) =>
      if 0 < i < |st.value.history| {
        AddEntryKeepsUnique(st.value, st.value.history[i]);
      }
    case ClearAll =>
  }

  lemma {:induction false} RunKeepsCoherent(st: SessionState, es: seq<Event>)
    requires Coherent(st.value)
    ensures Coherent(Run(st, es).value)
    decreases |es|
  {
    if es != [] {
      StepKeepsCoherent(st, es[0]);
      RunKeepsCoherent(Step(st, es[0]), es[1..]);
    }
  }

  /** Every value the application reaches is coherent; in particular, when
      the status is `success` the result panel can read `history[0]`. */
  lemma ReachableIsCoherent(es: seq<Event>)
    ensures Coherent(Run(Mounted, es).value)
  {
    RunKeepsCoherent(Mounted, es);
  }

  /** Running two event sequences one after the other is running their
      concatenation. */
  lemma {:induction false} RunAppend(st: SessionState, a: seq<Event>, b: seq<Event>)
    ensures Run(st, a + b) == Run(Run(st, a), b)
    decreases |a|
  {
    if a != [] {
      assert (a + b)[0] == a[0];
      assert (a + b)[1..] == a[1..] + b;
      RunAppend(Step(st, a[0]), a[1..], b);
    } else {
      assert a + b == b;
    }
  }

  /** A settled snapshot with data that changes the effect's dependencies
      puts that data at the head with status `success`, whatever came before
      and whichever lookup was submitted first; one that changes no
      dependency changes nothing. */
  lemma LastReportedSettlementWins(st: SessionState, es: seq<Event>, s: Snapshot)
    requires !IsLoading(s) && s.error.None? && s.data.Some?
    ensures Fires(Run(st, es), s) ==>
              Run(st, es + [Observe(s)]).value.status == Success &&
              |Run(st, es + [Observe(s)]).value.history| > 0 &&
              Run(st, es + [Observe(s)]).value.history[0] == s.data.value
    ensures !Fires(Run(st, es), s) ==> Run(st, es + [Observe(s)]) == Run(st, es)
  {
    RunAppend(st, es, [Observe(s)]);
    assert Run(Run(st, es), [Observe(s)]) == Step(Run(st, es), Observe(s));
  }

  /** Clicks and `clear` leave the effect's dependencies untouched. */
  lemma {:induction false} NoObserveKeepsLastSeen(st: SessionState, es: seq<Event>)
    requires forall k :: 0 <= k < |es| ==> !es[k].Observe?
    ensures Run(st, es).lastSeen == st.lastSeen
    decreases |es|
  {
    if es != [] {
      assert forall k :: 0 <= k < |es[1..]| ==> es[1..][k] == es[k + 1];
      NoObserveKeepsLastSeen(Step(st, es[0]), es[1..]);
    }
  }

  /** After clicks or a `clear`, a snapshot with the dependencies the effect
      last ran on does not run the effect again, so it cannot undo them. */
  lemma UnchangedDepsIgnored(st: SessionState, s: Snapshot, mid: seq<Event>, s2: Snapshot)
    requires DepsOf(s) == DepsOf(s2)
    requires forall k :: 0 <= k < |mid| ==> !mid[k].Observe?
    ensures Run(st, [Observe(s)] + mid + [Observe(s2)]) == Run(st, [Observe(s)] + mid)
  {
    var w := Run(st, [Observe(s)]);
    assert w.lastSeen.Some? && DepsOf(w.lastSeen.value) == DepsOf(s) by {
      assert Run(st, [Observe(s)]) == Run(Step(st, Observe(s)), []);
    }
    NoObserveKeepsLastSeen(w, mid);
    RunAppend(st, [Observe(s)], mid);
    RunAppend(st, [Observe(s)] + mid, [Observe(s2)]);
    var u := Run(st, [Observe(s)] + mid);
    assert Run(u, [Observe(s2)]) == Run(Step(u, Observe(s2)), []);
  }

  /** The effect's last run saw no snapshot that dispatches anything. */
  predicate Quiet(st: SessionState) {
    st.lastSeen.None? || EffectAction(st.lastSeen.value) == None
  }

  /** Over snapshots alone, a status other than `initial` never returns to it. */
  lemma {:induction false} NeverBackToInitial(st: SessionState, es: seq<Event>)
    requires forall k :: 0 <= k < |es| ==> es[k].Observe?
    requires st.value.status != Initial
    ensures Run(st, es).value.status != Initial
    decreases |es|
  {
    if es != [] {
      assert forall k :: 0 <= k < |es[1..]| ==> es[1..][k] == es[k + 1];
      NeverBackToInitial(Step(st, es[0]), es[1..]);
    }
  }

  /** Observing only snapshots, from a session whose effect has not yet
      dispatched anything, the status stays `initial` exactly as long as it
      started `initial` and no snapshot would make the effect dispatch; when
      none would, the store's value is untouched. */
  lemma {:induction false} InitialUntilFirstDispatch(st: SessionState, es: seq<Event>)
    requires forall k :: 0 <= k < |es| ==> es[k].Observe?
    requires Quiet(st)
    ensures Run(st, es).value.status == Initial <==>
            st.value.status == Initial && forall k :: 0 <= k < |es| ==> EffectAction(es[k].snapshot) == None
    ensures (forall k :: 0 <= k < |es| ==> EffectAction(es[k].snapshot) == None) ==> Run(st, es).value == st.value
    decreases |es|
  {
    if es != [] {
      var s0 := es[0].snapshot;
      var w := Step(st, es[0]);
      assert forall k :: 0 <= k < |es[1..]| ==> es[1..][k] == es[k + 1];
      if EffectAction(s0) == None {
        assert w.value == st.value && Quiet(w);
        InitialUntilFirstDispatch(w, es[1..]);
        forall k | 0 <= k < |es| && EffectAction(es[k].snapshot) != None
          ensures exists j :: 0 <= j < |es[1..]| && EffectAction(es[1..][j].snapshot) != None
        {
          assert es[1..][k - 1] == es[k];
        }
      } else if Fires(st, s0) {
        assert w.value.status != Initial;
        NeverBackToInitial(w, es[1..]);
      } else {
        EffectReadsOnlyDeps(st.lastSeen.value, s0);
        assert false;
      }
    }
  }

  /** Clicking the entry at `i > 0` of a coherent history moves it to the front
      without duplicating or losing any entry; the head cannot be clicked. */
  lemma SelectMovesToFront(st: SessionState, i: nat)
    requires Coherent(st.value) && i < |st.value.history|
    ensures i == 0 ==> Step(st, SelectEntry(i)) == st
    ensures 0 < i ==> (Step(st, SelectEntry(i)).value ==
              HistoryValue([st.value.history[i]] + (st.value.history[..i] + st.value.history[i + 1..]), Success))
    ensures 0 < i ==> multiset(Step(st, SelectEntry(i)).value.history) == multiset(st.value.history)
  {
    if 0 < i {
      AddExistingMovesToFront(st.value, i);
    }
  }

  /** Clearing from any session yields the initial value. */
  lemma ClearResets(st: SessionState, es: seq<Event>)
    ensures Run(st, es + [ClearAll]).value == InitialValue
  {
    RunAppend(st, es, [ClearAll]);
    assert Run(Run(st, es), [ClearAll]) == Step(Run(st, es), ClearAll);
  }

  // Example sessions.

  const Pikachu := Pokemon("pikachu", 25)
  const Scyther := Pokemon("scyther", 123)
  const Bulbasaur := Pokemon("bulbasaur", 1)

  /** Before the first lookup: nothing in flight, nothing settled. */
  const Idle := Snapshot(false, false, None, None)

  /** A lookup in flight. With no data yet the client reports both
      `isLoading` and `isFetching`; with `previous` data from an earlier
      lookup it reports only `isFetching`, and still reports that data. */
  function Pending(previous: Option<Pokemon>): Snapshot {
    Snapshot(previous.None?, true, previous, None)
  }

  function Settled(p: Pokemon): Snapshot {
    Snapshot(false, false, Some(p), None)
  }

  const Failed := Snapshot(false, false, None, Some(LookupError("Not Found")))

  /** A successful search: `initial` on mount, `loading` while in flight, then
      `success` with the result as the only history entry. */
  lemma SuccessPath()
    ensures Run(Mounted, [Observe(Idle)]).value == InitialValue
    ensures Run(Mounted, [Observe(Idle), Observe(Pending(None))]).value == HistoryValue([], Loading)
    ensures Run(Mounted, [Observe(Idle), Observe(Pending(None)), Observe(Settled(Pikachu))]).value
            == HistoryValue([Pikachu], Success)
  {
    var e1, e2, e3 := Observe(Idle), Observe(Pending(None)), Observe(Settled(Pikachu));
    var s1 := SessionState(InitialValue, Some(Idle));
    var s2 := SessionState(HistoryValue([], Loading), Some(Pending(None)));
    var s3 := SessionState(HistoryValue([Pikachu], Success), Some(Settled(Pikachu)));
    assert [e1, e2][1..] == [e2] && [e1, e2, e3][1..] == [e2, e3] && [e2, e3][1..] == [e3];
    assert Step(Mounted, e1) == s1 && Step(s1, e2) == s2;
    assert Step(s2, e3) == SessionState(HistoryValue([Pikachu] + [], Success), Some(Settled(Pikachu)));
    assert [Pikachu] + [] == [Pikachu];
    assert Run(Mounted, [e1]) == Run(s1, []);
    assert Run(Mounted, [e1, e2]) == Run(s1, [e2]) == Run(s2, []);
    assert Run(Mounted, [e1, e2, e3]) == Run(s1, [e2, e3]) == Run(s2, [e3]) == Run(s3, []);
  }

  /** A failed search: `loading`, then `error`, with the history untouched. */
  lemma ErrorPath()
    ensures Run(Mounted, [Observe(Pending(None)), Observe(Failed)]).value == HistoryValue([], Error)
  {
    var e1, e2 := Observe(Pending(None)), Observe(Failed);
    var s1 := SessionState(HistoryValue([], Loading), Some(Pending(None)));
    assert [e1, e2][1..] == [e2];
    assert Step(Mounted, e1) == s1;
    assert Run(Mounted, [e1, e2]) == Run(s1, [e2]) == Run(Step(s1, e2), []);
  }

  /** Two successful searches in a row; the second lookup's pending snapshot
      still carries the first result, and loading takes precedence over it. */
  lemma TwoDistinctSuccesses()
    ensures Run(Mounted, [Observe(Pending(None)), Observe(Settled(Pikachu)),
                          Observe(Pending(Some(Pikachu))), Observe(Settled(Scyther))]).value
            == HistoryValue([Scyther, Pikachu], Success)
  {
    var e1, e2, e3, e4 := Observe(Pending(None)), Observe(Settled(Pikachu)),
                          Observe(Pending(Some(Pikachu))), Observe(Settled(Scyther));
    var s1 := SessionState(HistoryValue([], Loading), Some(Pending(None)));
    var s2 := SessionState(HistoryValue([Pikachu], Success), Some(Settled(Pikachu)));
    var s3 := SessionState(HistoryValue([Pikachu], Loading), Some(Pending(Some(Pikachu))));
    var s4 := SessionState(HistoryValue([Scyther, Pikachu], Success), Some(Settled(Scyther)));
    assert [e1, e2, e3, e4][1..] == [e2, e3, e4] && [e2, e3, e4][1..] == [e3, e4];
    assert [e3, e4][1..] == [e4];
    assert WithoutName([], Pikachu.name) == [];
    assert WithoutName([Pikachu], Scyther.name) == [Pikachu] + WithoutName([], Scyther.name);
    assert [Pikachu] + [] == [Pikachu] && [Scyther] + [Pikachu] == [Scyther, Pikachu];
    assert Step(Mounted, e1) == s1 && Step(s1, e2) == s2;
    assert Step(s2, e3) == s3 && Step(s3, e4) == s4;
    assert Run(Mounted, [e1, e2, e3, e4]) == Run(s1, [e2, e3, e4]) == Run(s2, [e3, e4]);
    assert Run(s2, [e3, e4]) == Run(s3, [e4]) == Run(s4, []);
  }

  /** Searching again for an entry already in the history moves it to the
      front; the length stays the same. */
  lemma ResearchExisting()
    ensures Run(SessionState(HistoryValue([Scyther, Pikachu], Success), Some(Settled(Scyther))),
                [Observe(Pending(Some(Scyther))), Observe(Settled(Pikachu))]).value
            == HistoryValue([Pikachu, Scyther], Success)
  {
    var e1, e2 := Observe(Pending(Some(Scyther))), Observe(Settled(Pikachu));
    var h := [Scyther, Pikachu];
    var s0 := SessionState(HistoryValue(h, Success), Some(Settled(Scyther)));
    var s1 := SessionState(HistoryValue(h, Loading), Some(Pending(Some(Scyther))));
    assert [e1, e2][1..] == [e2] && h[1..] == [Pikachu];
    assert WithoutName([Pikachu], Pikachu.name) == WithoutName([], Pikachu.name) == [];
    assert WithoutName(h, Pikachu.name) == [Scyther] + WithoutName([Pikachu], Pikachu.name);
    assert [Pikachu] + ([Scyther] + []) == [Pikachu, Scyther];
    assert Step(s0, e1) == s1;
    assert Step(s1, e2).value == HistoryValue([Pikachu, Scyther], Success);
    assert Run(s0, [e1, e2]) == Run(s1, [e2]) == Run(Step(s1, e2), []);
  }

  /** Re-adding the head of `[bulbasaur, A]` keeps the list as it is. */
  lemma ReinsertHead(a: Pokemon)
    requires a.name != Bulbasaur.name
    ensures WithEntry(HistoryValue([Bulbasaur, a], Success), Bulbasaur).history == [Bulbasaur, a]
  {
  }
}
