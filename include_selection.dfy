/**
 * Which includes the validator attempts for one data node: every default
 * include, then every available include whose key the data array holds.
 */
module IncludeSelection {

  /**
   * The elements of `available`, in order, whose key is present among
   * `keys` (`array_key_exists($include, $data)`), built as the loop builds
   * it: by looking at one more element at the end.
   */
  function FilterPresent(available: seq<string>, keys: set<string>): seq<string>
  {
    if available == [] then []
    else
      var init := available[..|available| - 1];
      var last := available[|available| - 1];
      FilterPresent(init, keys) + (if last in keys then [last] else [])
  }

  /** The includes attempted: the default ones, unfiltered, then the available ones present in the data. */
  function Candidates(defaults: seq<string>, available: seq<string>, keys: set<string>): seq<string>
  {
    defaults + FilterPresent(available, keys)
  }

  /** The indices of `available` whose element is present among `keys`, in increasing order. */
  function PresentIndices(available: seq<string>, keys: set<string>): seq<nat>
  {
    if available == [] then []
    else
      var n := |available| - 1;
      PresentIndices(available[..n], keys) + (if available[n] in keys then [n] else [])
  }

  /**
   * The filter selects exactly the available includes present in the data,
   * each at its own position and in their order: the result is the
   * subsequence of `available` at the increasing indices whose element is
   * a key of the data.
   */
  lemma {:induction false} FilterPresentSelects(available: seq<string>, keys: set<string>)
    ensures var r, idx := FilterPresent(available, keys), PresentIndices(available, keys);
      && |idx| == |r|
      && (forall j :: 0 <= j < |idx| ==> idx[j] < |available| && r[j] == available[idx[j]])
      && (forall j, k :: 0 <= j < k < |idx| ==> idx[j] < idx[k])
      && (forall i :: 0 <= i < |available| ==> (i in idx <==> available[i] in keys))
  {
    if available != [] {
      var n := |available| - 1;
      var init := available[..n];
      FilterPresentSelects(init, keys);
      var idx0 := PresentIndices(init, keys);
      assert forall i :: 0 <= i < n ==> init[i] == available[i];
      assert forall j :: 0 <= j < |idx0| ==> idx0[j] < n;
    }
  }

  /** An available include enters the list if and only if its key is in the data. */
  lemma {:induction false} FilterPresentMembership(available: seq<string>, keys: set<string>, x: string)
    ensures x in FilterPresent(available, keys) <==> x in available && x in keys
  {
    if available != [] {
      var init := available[..|available| - 1];
      assert available == init + [available[|available| - 1]];
      FilterPresentMembership(init, keys, x);
    }
  }

  /** The filter keeps every occurrence of a present name and none of an absent one. */
  lemma {:induction false} FilterPresentCount(available: seq<string>, keys: set<string>, x: string)
    ensures multiset(FilterPresent(available, keys))[x] == if x in keys then multiset(available)[x] else 0
  {
    if available != [] {
      var init := available[..|available| - 1];
      assert available == init + [available[|available| - 1]];
      FilterPresentCount(init, keys, x);
    }
  }

  /**
   * How often a name is attempted: once per occurrence among the defaults,
   * whatever the data holds, plus once per occurrence among the available
   * includes when its key is present. A name that is both a default and an
   * available include present in the data is attempted twice.
   */
  lemma CandidatesCount(defaults: seq<string>, available: seq<string>, keys: set<string>, x: string)
    ensures multiset(Candidates(defaults, available, keys))[x] ==
              multiset(defaults)[x] + (if x in keys then multiset(available)[x] else 0)
    ensures x in defaults && x in available && x in keys ==> multiset(Candidates(defaults, available, keys))[x] >= 2
  {
    FilterPresentCount(available, keys, x);
  }
}
