/** Pages of a listing glue together exactly (storage/listv2.go). */
module Paging {
  import opened Sequences
  import opened Keys
  import opened Listing

  /** The whole listing: every non-empty relative key under the prefix. */
  function Full(items: seq<ListItem>, prefix: Key, recurse: bool): seq<ListItem>
    requires SortedStore(items)
  {
    After(items, prefix, recurse, [])
  }

  /** The limit is capped to the store's lookup limit. */
  function EffectiveLimit(limit: int, lookupLimit: int): int {
    if limit <= 0 || limit > lookupLimit then lookupLimit else limit
  }

  function Page(rs: seq<ListItem>, limit: nat): seq<ListItem> {
    if |rs| <= limit then rs else rs[..limit]
  }

  lemma ReturnedKeyIsCursor(items: seq<ListItem>, prefix: Key, recurse: bool, r: ListItem)
    requires SortedStore(items) && r in Full(items, prefix, recurse)
    ensures recurse || Cut(r.key) == r.key
    ensures r.key != []
  {
    AfterIsListing(items, prefix, recurse, []);
    var e := r.(key := prefix + r.key);
    var i :| 0 <= i < |items| && HasPrefix(items[i].key, prefix) && Entry(items[i], prefix, recurse) == e;
    EntryKey(items[i], prefix, recurse);
    CutFacts(items[i].key[|prefix|..]);
    assert e.key[|prefix|..] == r.key;
  }

  lemma SuffixMembers(full: seq<ListItem>, k: nat, r: ListItem)
    requires SortedByKey(full) && k < |full|
    ensures r in full[k + 1..] <==> r in full && Less(full[k].key, r.key)
  {
    if r in full && Less(full[k].key, r.key) {
      var i :| 0 <= i < |full| && full[i] == r;
      LessTrichotomy(full[k].key, r.key);
      assert full[k + 1..][i - k - 1] == r;
    }
    if r in full[k + 1..] {
      var i :| 0 <= i < |full[k + 1..]| && full[k + 1..][i] == r;
      assert r == full[k + 1 + i];
    }
  }

  /** A call that starts after the k-th item of the listing continues right behind it. */
  lemma ContinuesBehind(items: seq<ListItem>, prefix: Key, recurse: bool, full: seq<ListItem>, k: nat)
    requires SortedStore(items) && full == Full(items, prefix, recurse) && k < |full|
    ensures After(items, prefix, recurse, full[k].key) == full[k + 1..]
  {
    var start := full[k].key;
    ReturnedKeyIsCursor(items, prefix, recurse, full[k]);
    AfterIsListing(items, prefix, recurse, []);
    AfterIsListing(items, prefix, recurse, start);
    SuffixOfListing(items, prefix, recurse, full, k, After(items, prefix, recurse, start));
  }

  lemma SuffixOfListing(items: seq<ListItem>, prefix: Key, recurse: bool, full: seq<ListItem>, k: nat,
                        rest: seq<ListItem>)
    requires IsListingAfter(full, items, prefix, recurse, []) && k < |full|
    requires IsListingAfter(rest, items, prefix, recurse, full[k].key)
    ensures rest == full[k + 1..]
  {
    forall r
      ensures r in rest <==> r in full[k + 1..]
    {
      SuffixMembers(full, k, r);
    }
    SortedUnique(rest, full[k + 1..]);
  }

  // ----- repeated calls

  /** What the calls on one store, prefix and mode list, as a function of their start key. */
  ghost function Calls(items: seq<ListItem>, prefix: Key, recurse: bool): Key -> seq<ListItem>
    requires SortedStore(items)
  {
    (start: Key) => After(items, prefix, recurse, start)
  }

  /** The start key a caller holds after k listed items: none yet, or the key of the last one. */
  ghost function StartKey(full: seq<ListItem>, k: nat): Key
    requires k <= |full|
  {
    if k == 0 then [] else full[k - 1].key
  }

  /** A call that starts after k listed items lists exactly the rest. */
  ghost predicate Resumes(calls: Key -> seq<ListItem>, full: seq<ListItem>) {
    forall k {:trigger StartKey(full, k)} :: 0 <= k <= |full| ==> calls(StartKey(full, k)) == full[k..]
  }

  /** What a caller collects over repeated calls, each starting after the last key of the page
      before, until no more items follow; the n-th call may choose its own limit. */
  ghost function Collected(calls: Key -> seq<ListItem>, full: seq<ListItem>, k: nat, limits: nat -> nat,
                           n: nat): seq<ListItem>
    requires Resumes(calls, full) && k <= |full| && forall i :: limits(i) >= 1
    decreases |full| - k
  {
    var rs, limit := calls(StartKey(full, k)), limits(n);
    if |rs| <= limit then Page(rs, limit)
    else
      assert StartKey(full, k + limit) == rs[limit - 1].key;
      Page(rs, limit) + Collected(calls, full, k + limit, limits, n + 1)
  }

  lemma {:induction false} PagesGlue(calls: Key -> seq<ListItem>, full: seq<ListItem>, k: nat, limits: nat -> nat,
                                     n: nat)
    requires Resumes(calls, full) && k <= |full| && forall i :: limits(i) >= 1
    ensures Collected(calls, full, k, limits, n) == full[k..]
    decreases |full| - k
  {
    var limit := limits(n);
    if |full| - k > limit {
      PagesGlue(calls, full, k + limit, limits, n + 1);
      assert full[k..] == full[k..][..limit] + full[k + limit..];
    }
  }

  lemma CallsResume(items: seq<ListItem>, prefix: Key, recurse: bool)
    requires SortedStore(items)
    ensures Resumes(Calls(items, prefix, recurse), Full(items, prefix, recurse))
  {
    var full := Full(items, prefix, recurse);
    forall k | 0 <= k <= |full|
      ensures After(items, prefix, recurse, StartKey(full, k)) == full[k..]
    {
      if k > 0 {
        ContinuesBehind(items, prefix, recurse, full, k - 1);
      }
    }
  }

  /** Paging is complete: whatever limits the calls use, the pages concatenate to the sorted
      listing of every non-empty relative key under the prefix, without gap or duplicate. */
  lemma PagingIsComplete(items: seq<ListItem>, prefix: Key, recurse: bool, limits: nat -> nat)
    requires SortedStore(items) && forall i :: limits(i) >= 1
    ensures var calls, full := Calls(items, prefix, recurse), Full(items, prefix, recurse);
            && Resumes(calls, full)
            && Collected(calls, full, 0, limits, 0) == full
            && SortedByKey(full)
            && forall r :: r in full <==> r.key != [] && HasEntry(items, 0, prefix, recurse, r.(key := prefix + r.key))
  {
    CallsResume(items, prefix, recurse);
    PagesGlue(Calls(items, prefix, recurse), Full(items, prefix, recurse), 0, limits, 0);
    AfterIsListing(items, prefix, recurse, []);
  }
}
