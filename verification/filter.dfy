/**
 The address book's search (`filteredEntries`): an empty query shows every
 entry; otherwise the query is lowercased once and an entry is kept when its
 lowercased address or its lowercased name contains it.
 */
module SearchFilter {
  import opened Text
  import opened Entries

  /** Specification of a hit: the lowercased query occurs in the lowercased
      address or in the lowercased name. The query is taken literally:
      surrounding whitespace is not trimmed. */
  ghost predicate Matches(e: Entry, query: string) {
    IsSubstring(Lower(query), Lower(e.address)) || IsSubstring(Lower(query), Lower(e.name))
  }

  /** The callback handed to `Array.prototype.filter`, for a query `lq` that is already lowercase. */
  predicate Keeps(e: Entry, lq: string) {
    Includes(Lower(e.address), lq) || Includes(Lower(e.name), lq)
  }

  /** `Array.prototype.filter` with `Keeps`: walks the entries front to back. */
  function KeepMatching(es: seq<Entry>, lq: string): (r: seq<Entry>)
    ensures |r| <= |es|
    ensures forall e :: e in r <==> e in es && Keeps(e, lq)
    decreases |es|
  {
    if |es| == 0 then []
    else
      assert es == [es[0]] + es[1..];
      if Keeps(es[0], lq) then [es[0]] + KeepMatching(es[1..], lq)
      else KeepMatching(es[1..], lq)
  }

  /** Every entry matches the empty query, which is why the early return for it is safe. */
  lemma EmptyQueryMatchesAll(e: Entry)
    ensures Matches(e, "")
  {
    assert OccursAt(Lower(""), Lower(e.address), 0);
  }

  /** The component's `filteredEntries` for the address-book entries `es` and the search box text. */
  function FilterEntries(es: seq<Entry>, searchQuery: string): (r: seq<Entry>)
    ensures searchQuery == "" ==> r == es
    ensures forall e :: e in r <==> e in es && Matches(e, searchQuery)
  {
    if searchQuery == "" then
      assert forall e :: e in es ==> Matches(e, searchQuery) by {
        forall e | e in es ensures Matches(e, searchQuery) {
          EmptyQueryMatchesAll(e);
        }
      }
      es
    else
      KeepMatching(es, Lower(searchQuery))
  }

  /** `r` is the subsequence of `es` at the strictly increasing positions `idx`. */
  predicate IsSelection(r: seq<Entry>, es: seq<Entry>, idx: seq<nat>) {
    && |idx| == |r|
    && (forall k :: 0 <= k < |idx| ==> idx[k] < |es| && r[k] == es[idx[k]])
    && (forall k, l :: 0 <= k < l < |idx| ==> idx[k] < idx[l])
  }

  /** Every position moved one place to the right. */
  function Shift(idx: seq<nat>): (r: seq<nat>)
    ensures |r| == |idx|
    ensures forall k :: 0 <= k < |idx| ==> r[k] == idx[k] + 1
  {
    seq(|idx|, k requires 0 <= k < |idx| => idx[k] + 1)
  }

  /** A position is in the shifted positions iff its predecessor was in the original ones. */
  lemma ShiftMembers(idx: seq<nat>, i: nat)
    ensures i in Shift(idx) <==> i > 0 && i - 1 in idx
  {
  }

  /** A selection from the tail of `es` is a selection from `es`, with or without its head. */
  lemma SelectionFromTail(r: seq<Entry>, es: seq<Entry>, sub: seq<nat>)
    requires |es| > 0
    requires IsSelection(r, es[1..], sub)
    ensures IsSelection(r, es, Shift(sub))
    ensures IsSelection([es[0]] + r, es, [0] + Shift(sub))
  {
  }

  /** The positions of `es` whose entry passes the callback, in increasing order. */
  function KeptPositions(es: seq<Entry>, lq: string): seq<nat>
    decreases |es|
  {
    if |es| == 0 then []
    else (if Keeps(es[0], lq) then [0] else []) + Shift(KeptPositions(es[1..], lq))
  }

  /** `KeepMatching` is the selection of `es` at exactly the positions whose
      entry it keeps, in their original order. */
  lemma {:induction false} KeepMatchingPositions(es: seq<Entry>, lq: string)
    ensures IsSelection(KeepMatching(es, lq), es, KeptPositions(es, lq))
    ensures forall i :: 0 <= i < |es| ==> (i in KeptPositions(es, lq) <==> Keeps(es[i], lq))
    decreases |es|
  {
    if |es| > 0 {
      var sub := KeptPositions(es[1..], lq);
      KeepMatchingPositions(es[1..], lq);
      SelectionFromTail(KeepMatching(es[1..], lq), es, sub);
      forall i | 0 <= i < |es| ensures i in KeptPositions(es, lq) <==> Keeps(es[i], lq) {
        ShiftMembers(sub, i);
        if i > 0 {
          assert es[1..][i - 1] == es[i];
        }
      }
    }
  }

  /** Every position of `es`, in order. */
  function AllPositions(es: seq<Entry>): (idx: seq<nat>)
    ensures |idx| == |es|
    ensures forall i :: 0 <= i < |es| ==> idx[i] == i
  {
    seq(|es|, i requires 0 <= i < |es| => i)
  }

  /** The positions the search shows: all of them for the empty query, else those the callback keeps. */
  function ShownPositions(es: seq<Entry>, searchQuery: string): seq<nat> {
    if searchQuery == "" then AllPositions(es) else KeptPositions(es, Lower(searchQuery))
  }

  /** The search result is the subsequence of the input at exactly the positions
      whose entry matches the query, in the input's order. */
  lemma FilterPositions(es: seq<Entry>, searchQuery: string)
    ensures IsSelection(FilterEntries(es, searchQuery), es, ShownPositions(es, searchQuery))
    ensures forall i :: 0 <= i < |es| ==> (i in ShownPositions(es, searchQuery) <==> Matches(es[i], searchQuery))
  {
    if searchQuery == "" {
      forall i | 0 <= i < |es| ensures i in AllPositions(es) && Matches(es[i], searchQuery) {
        assert AllPositions(es)[i] == i;
        EmptyQueryMatchesAll(es[i]);
      }
    } else {
      KeepMatchingPositions(es, Lower(searchQuery));
    }
  }

  /** A selection of entries with distinct addresses has distinct addresses. */
  lemma SelectionKeepsUnique(r: seq<Entry>, es: seq<Entry>, idx: seq<nat>)
    requires IsSelection(r, es, idx)
    requires UniqueAddresses(es)
    ensures UniqueAddresses(r)
  {
  }

  /** Searching never makes two shown entries share an address. */
  lemma FilterKeepsUniqueAddresses(es: seq<Entry>, searchQuery: string)
    requires UniqueAddresses(es)
    ensures UniqueAddresses(FilterEntries(es, searchQuery))
  {
    FilterPositions(es, searchQuery);
    SelectionKeepsUnique(FilterEntries(es, searchQuery), es, ShownPositions(es, searchQuery));
  }

  /** Filtering an already filtered list with the same lowercase query changes nothing. */
  lemma {:induction false} KeepMatchingIdempotent(es: seq<Entry>, lq: string)
    ensures KeepMatching(KeepMatching(es, lq), lq) == KeepMatching(es, lq)
    decreases |es|
  {
    if |es| > 0 {
      KeepMatchingIdempotent(es[1..], lq);
      if Keeps(es[0], lq) {
        var rest := KeepMatching(es[1..], lq);
        assert ([es[0]] + rest)[1..] == rest;
      }
    }
  }

  /** Searching the search result again with the same query changes nothing. */
  lemma FilterIdempotent(es: seq<Entry>, searchQuery: string)
    ensures FilterEntries(FilterEntries(es, searchQuery), searchQuery) == FilterEntries(es, searchQuery)
  {
    if searchQuery != "" {
      KeepMatchingIdempotent(es, Lower(searchQuery));
    }
  }

  /** The search is case-insensitive in the query: two queries that lowercase
      alike show the same entries in the same order. */
  lemma FilterIgnoresQueryCase(es: seq<Entry>, q1: string, q2: string)
    requires Lower(q1) == Lower(q2)
    ensures FilterEntries(es, q1) == FilterEntries(es, q2)
  {
  }

  /** The two-entry address book the search scenarios below run on. */
  function ScenarioBook(): (book: seq<Entry>)
    ensures |book| == 2
  {
    [Entry("0xAAA", "Alice"), Entry("0xBBB", "Bob")]
  }

  /** The scenario book's fields, lowercased. */
  lemma ScenarioBookLowered()
    ensures Lower("0xAAA") == "0xaaa" && Lower("Alice") == "alice"
    ensures Lower("0xBBB") == "0xbbb" && Lower("Bob") == "bob"
  {
  }

  /** A fragment of a name finds that entry only. */
  lemma SearchByName()
    ensures FilterEntries(ScenarioBook(), "ali") == [ScenarioBook()[0]]
  {
    ScenarioBookLowered();
    assert Lower("ali") == "ali";
    assert OccursAt("ali", "alice", 0);
    MissingCharNotIncluded("0xbbb", "ali", 'a');
    MissingCharNotIncluded("bob", "ali", 'a');
  }

  /** An address typed in another case finds that entry only. */
  lemma SearchByAddressOtherCase()
    ensures FilterEntries(ScenarioBook(), "0xbbb") == [ScenarioBook()[1]]
  {
    ScenarioBookLowered();
    assert Lower("0xbbb") == "0xbbb";
    assert OccursAt("0xbbb", "0xbbb", 0);
    MissingCharNotIncluded("0xaaa", "0xbbb", 'b');
    MissingCharNotIncluded("alice", "0xbbb", 'b');
  }

  /** A lone space is searched for literally, not trimmed to the empty query:
      it finds neither entry, where the empty query finds both. */
  lemma SearchBySpace()
    ensures FilterEntries(ScenarioBook(), " ") == []
    ensures FilterEntries(ScenarioBook(), "") == ScenarioBook()
  {
    ScenarioBookLowered();
    assert Lower(" ") == " ";
    MissingCharNotIncluded("0xaaa", " ", ' ');
    MissingCharNotIncluded("alice", " ", ' ');
    MissingCharNotIncluded("0xbbb", " ", ' ');
    MissingCharNotIncluded("bob", " ", ' ');
  }
}
