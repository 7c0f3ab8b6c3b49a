/**
  The search side bar: the form that triggers a lookup by name and feeds the
  lookup's lifecycle into the history store, and the history list whose
  entries can be re-selected.
 */
module LeftSideBar {
  import opened SearchHistorySlice

  datatype Option<T> = None | Some(value: T)

  /** What the lookup client reports when a lookup fails; the side bar only
      asks whether an error is present. */
  datatype LookupError = LookupError(detail: string)

  /** One view of the lazy lookup's lifecycle, as the form reads it. */
  datatype Snapshot = Snapshot(isLoading: bool, isFetching: bool,
                               data: Option<Pokemon>, error: Option<LookupError>)

  /** The form's `loading` flag. */
  predicate IsLoading(s: Snapshot) {
    s.isLoading || s.isFetching
  }

  /** The effect's dependency list: it runs again only when one of these
      differs from the previous render's. */
  datatype EffectDeps = EffectDeps(loading: bool, pokemon: Option<Pokemon>, error: Option<LookupError>)

  function DepsOf(s: Snapshot): EffectDeps {
    EffectDeps(IsLoading(s), s.data, s.error)
  }

  /** The body of the form's effect: at most one action for the store, chosen
      in the order loading, error, data. */
  function EffectAction(s: Snapshot): (r: Option<Action>)
    ensures r == Some(SetStatus(Loading)) <==> s.isLoading || s.isFetching
    ensures r == Some(SetStatus(Error)) <==> !IsLoading(s) && s.error.Some?
    ensures (r.Some? && r.value.AddEntry?) <==> !IsLoading(s) && s.error.None? && s.data.Some?
    ensures r.Some? && r.value.AddEntry? ==> r.value.entry == s.data.value
    ensures r.Some? ==> r.value in {SetStatus(Loading), SetStatus(Error)} || r.value.AddEntry?
  {
    if IsLoading(s) then Some(SetStatus(Loading))
    else if s.error.Some? then Some(SetStatus(Error))
    else if s.data.Some? then Some(AddEntry(s.data.value))
    else None
  }

  /** The store's value after the effect has run for snapshot `s`. */
  function EffectStep(v: HistoryValue, s: Snapshot): (r: HistoryValue)
    ensures IsLoading(s) ==> r == v.(status := Loading)
    ensures !IsLoading(s) && s.error.Some? ==> r == v.(status := Error)
    ensures !IsLoading(s) && s.error.None? && s.data.Some? ==>
              r.status == Success && |r.history| > 0 && r.history[0] == s.data.value
    ensures !IsLoading(s) && s.error.None? && s.data.None? ==> r == v
    ensures r.status != Initial || r == v
  {
    match EffectAction(s)
    case None => v
    case Some(a) => Reduce(v, a)
  }

  /** The effect reads nothing but its dependencies: two snapshots with the
      same dependencies make it dispatch the same action. */
  lemma EffectReadsOnlyDeps(s1: Snapshot, s2: Snapshot)
    requires DepsOf(s1) == DepsOf(s2)
    ensures EffectAction(s1) == EffectAction(s2)
  {
    assert IsLoading(s1) == DepsOf(s1).loading == DepsOf(s2).loading == IsLoading(s2);
  }

  /** Running the effect twice in a row on the same snapshot has the effect
      of running it once. */
  lemma EffectStepIdempotent(v: HistoryValue, s: Snapshot)
    ensures EffectStep(EffectStep(v, s), s) == EffectStep(v, s)
  {
    if !IsLoading(s) && s.error.None? && s.data.Some? {
      AddEntryIdempotent(v, s.data.value);
    }
  }

  /** The history list's click handler for the entry at `index`; the head's
      button is disabled. */
  function HistoryClickAction(h: seq<Pokemon>, index: nat): (r: Option<Action>)
    requires index < |h|
    ensures r.None? <==> index == 0
    ensures r.Some? ==> r.value == AddEntry(h[index])
  {
    if index == 0 then None else Some(AddEntry(h[index]))
  }

  predicate IsUpper(c: char) {
    'A' <= c <= 'Z'
  }

  /** The form keeps only names without upper-case letters. */
  predicate IsLowerCase(s: string) {
    forall i :: 0 <= i < |s| ==> !IsUpper(s[i])
  }

  /** `toLowerCase` on the letters A to Z; every other character is kept. */
  function ToLower(s: string): (r: string)
    ensures |r| == |s| && IsLowerCase(r)
    ensures forall i :: 0 <= i < |s| && !IsUpper(s[i]) ==> r[i] == s[i]
    ensures forall i :: 0 <= i < |s| && IsUpper(s[i]) ==>
              r[i] as int - 'a' as int == s[i] as int - 'A' as int
  {
    seq(|s|, i requires 0 <= i < |s| =>
      if IsUpper(s[i]) then (s[i] as int - 'A' as int + 'a' as int) as char else s[i])
  }

  /** The guard of the submit handler: only a non-empty name is looked up. */
  function SubmitLookup(searchName: string): (r: Option<string>)
    ensures r.Some? <==> |searchName| > 0
    ensures r.Some? ==> r.value == searchName
  {
    if searchName != "" then Some(searchName) else None
  }

  /** The search form's own state: the text in its input. */
  class SearchForm {
    var searchName: string

    /** Every name the form holds has been lower-cased. */
    ghost predicate Valid()
      reads this
    {
      IsLowerCase(searchName)
    }

    /** The form mounts with an empty input. */
    constructor ()
      ensures Valid() && searchName == ""
    {
      searchName := "";
    }

    /** The input's change handler stores the typed value lower-cased. */
    method OnChange(value: string)
      modifies this
      ensures Valid()
      ensures searchName == ToLower(value)
    {
      searchName := ToLower(value);
    }

    /** The submit handler: asks for a lookup of the current name when it is
        non-empty, and empties the input in every case. The returned name is
        the one handed to the lookup client. */
    method HandleSubmit() returns (lookup: Option<string>)
      requires Valid()
      modifies this
      ensures Valid() && searchName == ""
      ensures lookup == SubmitLookup(old(searchName))
      ensures lookup.Some? ==> lookup.value != "" && IsLowerCase(lookup.value)
    {
      lookup := SubmitLookup(searchName);
      searchName := "";
    }

    /** The submit button is disabled while the lookup in snapshot `s` is
        loading and whenever submitting would not start a lookup. */
    function SubmitDisabled(s: Snapshot): (disabled: bool)
      reads this
      ensures !disabled ==> !(s.isLoading || s.isFetching) && SubmitLookup(searchName).Some?
      ensures disabled ==> s.isLoading || s.isFetching || SubmitLookup(searchName).None?
    {
      |searchName| == 0 || IsLoading(s)
    }
  }
}
