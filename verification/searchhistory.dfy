/**
  The search-history slice of the store: an ordered, name-deduplicated list of
  resolved Pokémon (most recent first) together with the presentation status
  of the search panel, and the three reducers that change it.
 */
module SearchHistorySlice {

  /** A resolved catalog record. Only `name` (the dedup key) and `id` are
      inspected; every other field of the catalog's record is payload. */
  datatype Pokemon = Pokemon(name: string, id: int)

  /** The four presentation states of the search panel. */
  datatype SearchStatus = Initial | Loading | Error | Success

  /** The slice's `value`: the history list and the current status. */
  datatype HistoryValue = HistoryValue(history: seq<Pokemon>, status: SearchStatus)

  /** The actions the slice exports, one per reducer. */
  datatype Action = Clear | SetStatus(status: SearchStatus) | AddEntry(entry: Pokemon)

  /** The state the store starts in, and the one `clear` restores. */
  const InitialValue := HistoryValue([], Initial)

  /** No two entries of the history share a name. */
  predicate UniqueNames(h: seq<Pokemon>) {
    forall i, j :: 0 <= i < j < |h| ==> h[i].name != h[j].name
  }

  /** Some entry of `h` carries `name`. */
  predicate HasName(h: seq<Pokemon>, name: string) {
    exists q :: q in h && q.name == name
  }

  /** `a` can be obtained from `b` by deleting elements: the order of what is
      kept is the order it had in `b`. */
  predicate IsSubsequence<T(==)>(a: seq<T>, b: seq<T>)
    decreases |b|
  {
    if a == [] then true
    else if b == [] then false
    else if a[0] == b[0] then IsSubsequence(a[1..], b[1..])
    else IsSubsequence(a, b[1..])
  }

  /** The `filter` in `addEntry`: the entries of `h` whose name differs from
      `name`, front to back. */
  function WithoutName(h: seq<Pokemon>, name: string): (r: seq<Pokemon>)
    ensures |r| <= |h|
    ensures forall q :: q in r <==> q in h && q.name != name
  {
    if h == [] then []
    else if h[0].name != name then [h[0]] + WithoutName(h[1..], name)
    else WithoutName(h[1..], name)
  }

  /** The value `addEntry(p)` produces: `p` in front of every older entry with
      a different name, and status `success`. */
  function WithEntry(v: HistoryValue, p: Pokemon): (r: HistoryValue)
    ensures r.status == Success
    ensures |r.history| > 0 && r.history[0] == p
    ensures forall i :: 0 < i < |r.history| ==> r.history[i].name != p.name
    ensures |r.history| <= |v.history| + 1
  {
    HistoryValue([p] + WithoutName(v.history, p.name), Success)
  }

  /** The slice's reducer: what each dispatched action makes of the value. */
  function Reduce(v: HistoryValue, a: Action): (r: HistoryValue)
    ensures a.Clear? ==> r == InitialValue
    ensures a.SetStatus? ==> r.history == v.history && r.status == a.status
    ensures a.AddEntry? ==> r.status == Success && |r.history| > 0 && r.history[0] == a.entry
  {
    match a
    case Clear => InitialValue
    case SetStatus(s) => v.(status := s)
    case AddEntry(p) => WithEntry(v, p)
  }

  /** The filter keeps exactly the entries with another name, each as often
      as it occurred, in their original order. */
  lemma {:induction false} WithoutNameIsFilter(h: seq<Pokemon>, name: string)
    ensures IsSubsequence(WithoutName(h, name), h)
    ensures forall q :: multiset(WithoutName(h, name))[q] ==
                        if q.name == name then 0 else multiset(h)[q]
  {
    if h != [] {
      var t := h[1..];
      assert h == [h[0]] + t;
      WithoutNameIsFilter(t, name);
      var rt := WithoutName(t, name);
      if h[0].name != name {
        assert WithoutName(h, name) == [h[0]] + rt;
        assert ([h[0]] + rt)[1..] == rt;
      } else {
        assert WithoutName(h, name) == rt;
        if rt != [] {
          assert rt[0] in rt;
          assert rt[0] != h[0];
        }
      }
    }
  }

  /** Filtering out a name that no entry carries changes nothing. */
  lemma {:induction false} WithoutAbsentName(h: seq<Pokemon>, name: string)
    requires !HasName(h, name)
    ensures WithoutName(h, name) == h
  {
    if h != [] {
      assert h[0] in h;
      assert h[1..] == h[..][1..];
      assert forall q :: q in h[1..] ==> q in h;
      WithoutAbsentName(h[1..], name);
      assert h == [h[0]] + h[1..];
    }
  }

  /** Dropping the head of a history keeps its names unique. */
  lemma UniqueTail(h: seq<Pokemon>)
    requires UniqueNames(h) && h != []
    ensures UniqueNames(h[1..])
    ensures !HasName(h[1..], h[0].name)
  {
    var t := h[1..];
    forall a, b | 0 <= a < b < |t| ensures t[a].name != t[b].name {
      assert t[a] == h[a + 1] && t[b] == h[b + 1];
    }
    forall q | q in t ensures q.name != h[0].name {
      var k :| 0 <= k < |t| && t[k] == q;
      assert h[k + 1] == q;
    }
  }

  /** With unique names, filtering out the name of entry `i` removes exactly
      that entry. */
  lemma {:induction false} WithoutUniqueName(h: seq<Pokemon>, i: nat)
    requires UniqueNames(h) && i < |h|
    ensures WithoutName(h, h[i].name) == h[..i] + h[i + 1..]
  {
    var t := h[1..];
    UniqueTail(h);
    if i == 0 {
      WithoutAbsentName(t, h[0].name);
    } else {
      assert t[i - 1] == h[i];
      WithoutUniqueName(t, i - 1);
      assert h[0].name != h[i].name;
      assert WithoutName(h, h[i].name) == [h[0]] + (t[..i - 1] + t[i..]);
      assert h[..i] == [h[0]] + t[..i - 1];
      assert h[i + 1..] == t[i..];
    }
  }

  /** Filtering a list with unique names leaves unique names. */
  lemma {:induction false} WithoutNameKeepsUnique(h: seq<Pokemon>, name: string)
    requires UniqueNames(h)
    ensures UniqueNames(WithoutName(h, name))
  {
    if h != [] {
      var t := h[1..];
      UniqueTail(h);
      WithoutNameKeepsUnique(t, name);
      var rt := WithoutName(t, name);
      if h[0].name != name {
        var r := [h[0]] + rt;
        forall a, b | 0 <= a < b < |r| ensures r[a].name != r[b].name {
          if a == 0 {
            assert r[b] == rt[b - 1] && rt[b - 1] in rt;
            var k :| 0 <= k < |t| && t[k] == r[b];
            assert h[k + 1] == r[b];
          } else {
            assert r[a] == rt[a - 1] && r[b] == rt[b - 1];
          }
        }
      }
    }
  }

  /** After `addEntry(p)` no entry but the head is named like `p`, so unique
      names stay unique. */
  lemma AddEntryKeepsUnique(v: HistoryValue, p: Pokemon)
    requires UniqueNames(v.history)
    ensures UniqueNames(WithEntry(v, p).history)
  {
    WithoutNameKeepsUnique(v.history, p.name);
    var r := WithEntry(v, p).history;
    forall a, b | 0 <= a < b < |r| ensures r[a].name != r[b].name {
      if a > 0 {
        assert r[a] == r[1..][a - 1] && r[b] == r[1..][b - 1];
      }
    }
  }

  /** Behind the new head, `addEntry(p)` keeps every older entry named
      otherwise, as often as before and in the same relative order. */
  lemma AddEntryKeepsOthersInOrder(v: HistoryValue, p: Pokemon)
    ensures IsSubsequence(WithEntry(v, p).history[1..], v.history)
    ensures forall q: Pokemon :: q.name != p.name ==>
              multiset(WithEntry(v, p).history[1..])[q] == multiset(v.history)[q]
  {
    WithoutNameIsFilter(v.history, p.name);
    assert WithEntry(v, p).history[1..] == WithoutName(v.history, p.name);
  }

  /** With unique names, `addEntry(p)` keeps the length when `p`'s name was
      already present and grows it by one otherwise. */
  lemma AddEntryLength(v: HistoryValue, p: Pokemon)
    requires UniqueNames(v.history)
    ensures |WithEntry(v, p).history| ==
            if HasName(v.history, p.name) then |v.history| else |v.history| + 1
  {
    if HasName(v.history, p.name) {
      var q :| q in v.history && q.name == p.name;
      var i :| 0 <= i < |v.history| && v.history[i] == q;
      WithoutUniqueName(v.history, i);
    } else {
      WithoutAbsentName(v.history, p.name);
    }
  }

  /** Adding the same entry twice in a row is the same as adding it once. */
  lemma AddEntryIdempotent(v: HistoryValue, p: Pokemon)
    ensures WithEntry(WithEntry(v, p), p) == WithEntry(v, p)
  {
    var r := WithEntry(v, p).history;
    var t := WithoutName(v.history, p.name);
    assert r == [p] + t;
    assert WithoutName(r, p.name) == WithoutName(t, p.name);
    WithoutAbsentName(t, p.name);
  }

  /** Moving element `i` to the front rearranges the sequence: the same
      elements, each as often as before. */
  lemma MoveToFrontPermutes<T>(h: seq<T>, i: nat)
    requires i < |h|
    ensures multiset([h[i]] + (h[..i] + h[i + 1..])) == multiset(h)
  {
    assert h == h[..i] + ([h[i]] + h[i + 1..]);
  }

  /** Re-adding the entry at index `i` of a history with unique names moves it
      to the front: nothing is duplicated or lost, the rest keep their order. */
  lemma AddExistingMovesToFront(v: HistoryValue, i: nat)
    requires UniqueNames(v.history) && i < |v.history|
    ensures WithEntry(v, v.history[i]).history ==
            [v.history[i]] + (v.history[..i] + v.history[i + 1..])
    ensures multiset(WithEntry(v, v.history[i]).history) == multiset(v.history)
    ensures i == 0 ==> WithEntry(v, v.history[i]).history == v.history
  {
    var h := v.history;
    WithoutUniqueName(h, i);
    MoveToFrontPermutes(h, i);
    if i == 0 {
      assert h[..0] + h[1..] == h[1..];
    }
  }

  /** The store that owns the slice's value. Each reducer replaces `value`
      as a whole, so readers never see a half-updated value. */
  class SearchHistoryStore {
    var value: HistoryValue

    /** The store starts from the slice's initial state. */
    constructor ()
      ensures value == InitialValue
    {
      value := InitialValue;
    }

    /** `clear`: back to an empty history with status `initial`, whatever
        came before. */
    method Clear()
      modifies this
      ensures value == InitialValue
      ensures value.history == [] && value.status == Initial
    {
      value := InitialValue;
    }

    /** `setStatus(s)`: replaces the status and keeps the history; any status
        is accepted, `success` included. */
    method SetStatus(s: SearchStatus)
      modifies this
      ensures value.history == old(value.history)
      ensures value.status == s
    {
      value := value.(status := s);
    }

    /** `addEntry(p)`: `p` moves (or is added) to the front, older entries with
        the same name are dropped, and the status becomes `success`. */
    method AddEntry(p: Pokemon)
      modifies this
      ensures value == WithEntry(old(value), p)
      ensures value.status == Success && |value.history| > 0 && value.history[0] == p
      ensures value.history[1..] == WithoutName(old(value.history), p.name)
      ensures UniqueNames(old(value.history)) ==> UniqueNames(value.history)
    {
      var filtered := WithoutName(value.history, p.name);
      value := HistoryValue([p] + filtered, Success);
      assert value.history[1..] == filtered;
      if UniqueNames(old(value.history)) {
        AddEntryKeepsUnique(old(value), p);
      }
    }

    /** Dispatching an action runs the matching reducer. */
    method Dispatch(a: Action)
      modifies this
      ensures value == Reduce(old(value), a)
    {
      match a
      case Clear => Clear();
      case SetStatus(s) => SetStatus(s);
      case AddEntry(p) => AddEntry(p);
    }
  }
}
