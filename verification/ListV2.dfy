/** The store iterator and the listing calls built on it
    (storage/teststore/store.go, storage/listv2.go, storage/listkeys.go). */
module ListV2 {
  import opened Wrappers
  import opened Sequences
  import opened Keys
  import opened Listing
  import opened Paging
  import opened ListingResults

  // ----- skipping a collapsed prefix

  /** A collapsed prefix below `prefix`: it ends in its first delimiter. */
  predicate CollapsedPrefix(p: Key, prefix: Key) {
    HasPrefix(p, prefix) && DELIMITER in p[|prefix|..] && Cut(p[|prefix|..]) == p[|prefix|..]
  }

  lemma CollapsedLast(p: Key, prefix: Key)
    requires CollapsedPrefix(p, prefix)
    ensures p != [] && p[|p| - 1] == DELIMITER
  {
    var q := p[|prefix|..];
    OwnCutEnds(q);
    assert p[|p| - 1] == q[|q| - 1];
  }

  ghost predicate AllFrom(items: seq<ListItem>, n: nat, key: Key) {
    forall i :: n <= i < |items| ==> !Less(items[i].key, key)
  }

  lemma SkipsItem(items: seq<ListItem>, p: Key, i: nat)
    requires SortedByKey(items) && i < |items| && p != [] && p[|p| - 1] < 255 && !Less(items[i].key, p)
    ensures HasPrefix(items[i].key, p) <==> i < IndexOf(items, AfterPrefixOf(p))
  {
    PrefixRange(p, items[i].key);
    AtOrAfterIndexOf(items, AfterPrefixOf(p), i);
  }

  /** Seeking to AfterPrefix skips the items that share the prefix and no others. */
  lemma SkipsExactly(items: seq<ListItem>, n: nat, prefix: Key, p: Key)
    requires SortedStore(items) && n < |items| && CollapsedPrefix(p, prefix) && AllFrom(items, n, p)
    requires HasPrefix(items[n].key, p)
    ensures var m := IndexOf(items, AfterPrefixOf(p));
            && n < m <= |items|
            && (forall i :: n <= i < m ==> HasPrefix(items[i].key, p))
            && (forall i :: m <= i < |items| ==> !HasPrefix(items[i].key, p))
  {
    CollapsedLast(p, prefix);
    forall i | n <= i < |items|
      ensures HasPrefix(items[i].key, p) <==> i < IndexOf(items, AfterPrefixOf(p))
    {
      SkipsItem(items, p, i);
    }
  }

  lemma EntryBelow(item: ListItem, prefix: Key, p: Key)
    requires CollapsedPrefix(p, prefix) && HasPrefix(item.key, prefix) && !item.isPrefix
    ensures HasPrefix(item.key, p) <==> Entry(item, prefix, false) == ListItem(p, [], true)
  {
    var r, q := item.key[|prefix|..], p[|prefix|..];
    assert item.key == prefix + r && p == prefix + q;
    CutFacts(r);
    if HasPrefix(item.key, p) {
      assert HasPrefix(r, q);
      CutAbsorbs(q, r);
    }
  }

  lemma EntryAlone(items: seq<ListItem>, n: nat, prefix: Key, recurse: bool)
    requires SortedStore(items) && n < |items| && HasPrefix(items[n].key, prefix)
    requires forall i :: n < i < |items| && HasPrefix(items[i].key, prefix) ==>
      Entry(items[i], prefix, recurse) != Entry(items[n], prefix, recurse)
    ensures Entries(items, n, prefix, recurse) ==
      [Entry(items[n], prefix, recurse)] + Entries(items, n + 1, prefix, recurse)
  {
    var e := Entry(items[n], prefix, recurse);
    EntriesAreSorted(items, n + 1, prefix, recurse);
    assert !HasEntry(items, n + 1, prefix, recurse, e);
    assert e !in Entries(items, n + 1, prefix, recurse);
  }

  /** Neighbours that share one entry contribute it once. */
  lemma {:induction false} EntriesOfRun(items: seq<ListItem>, n: nat, m: nat, prefix: Key, e: ListItem)
    requires SortedStore(items) && n < m <= |items|
    requires forall i :: n <= i < m ==> HasPrefix(items[i].key, prefix) && Entry(items[i], prefix, false) == e
    requires forall i :: m <= i < |items| && HasPrefix(items[i].key, prefix) ==> Entry(items[i], prefix, false) != e
    ensures Entries(items, n, prefix, false) == [e] + Entries(items, m, prefix, false)
    decreases m - n
  {
    if n + 1 == m {
      EntryAlone(items, n, prefix, false);
    } else {
      EntriesOfRun(items, n + 1, m, prefix, e);
    }
  }

  /** Behind an item that sorts after all keys with the prefix there are no more entries. */
  lemma {:induction false} PastThePrefix(items: seq<ListItem>, n: nat, prefix: Key, recurse: bool)
    requires SortedStore(items) && n < |items| && !Less(items[n].key, prefix) && !HasPrefix(items[n].key, prefix)
    ensures Entries(items, n, prefix, recurse) == []
    decreases |items| - n
  {
    if n + 1 < |items| {
      PrefixContiguous(prefix, items[n].key, items[n + 1].key);
      PastThePrefix(items, n + 1, prefix, recurse);
    }
  }

  /** Where the walk continues after it produced the entry of the n-th item. */
  function Following(items: seq<ListItem>, n: nat, e: ListItem): (m: nat)
    requires n < |items| && e.key != []
    ensures m <= |items|
  {
    if e.isPrefix && n + 1 < |items| && HasPrefix(items[n + 1].key, e.key) then IndexOf(items, AfterPrefixOf(e.key))
    else n + 1
  }

  lemma ProducesEntry(items: seq<ListItem>, n: nat, prefix: Key, recurse: bool)
    requires SortedStore(items) && n < |items| && AllFrom(items, n, prefix) && HasPrefix(items[n].key, prefix)
    ensures var e := Entry(items[n], prefix, recurse);
            && (e.isPrefix ==> !recurse && CollapsedPrefix(e.key, prefix) && AllFrom(items, n + 1, e.key))
            && e.key != []
            && Entries(items, n, prefix, recurse) == [e] + Entries(items, Following(items, n, e), prefix, recurse)
  {
    var e := Entry(items[n], prefix, recurse);
    EntryKey(items[n], prefix, recurse);
    CutFacts(items[n].key[|prefix|..]);
    if e.isPrefix {
      forall i | n <= i < |items|
        ensures !Less(items[i].key, e.key)
      {
        PrefixNotBefore(items[n].key, e.key);
        if i > n && Less(items[i].key, e.key) {
          LessTransitive(items[n].key, items[i].key, e.key);
        }
      }
      EntriesOfSharedPrefix(items, n, prefix, e);
    } else {
      forall i | n < i < |items| && HasPrefix(items[i].key, prefix)
        ensures Entry(items[i], prefix, recurse) != e
      {
        LessTrichotomy(items[n].key, items[i].key);
      }
      EntryAlone(items, n, prefix, recurse);
    }
  }

  lemma EntriesOfSharedPrefix(items: seq<ListItem>, n: nat, prefix: Key, e: ListItem)
    requires SortedStore(items) && n < |items| && AllFrom(items, n, prefix) && HasPrefix(items[n].key, prefix)
    requires e == Entry(items[n], prefix, false) && e.isPrefix && CollapsedPrefix(e.key, prefix)
    requires AllFrom(items, n, e.key)
    ensures e.key != [] &&
      Entries(items, n, prefix, false) == [e] + Entries(items, Following(items, n, e), prefix, false)
  {
    EntryBelow(items[n], prefix, e.key);
    SkipsExactly(items, n, prefix, e.key);
    var m := IndexOf(items, AfterPrefixOf(e.key));
    forall i | n <= i < |items| && HasPrefix(items[i].key, prefix)
      ensures Entry(items[i], prefix, false) == e <==> i < m
    {
      EntryBelow(items[i], prefix, e.key);
    }
    EntriesOfRun(items, n, m, prefix, e);
    if n + 1 < |items| && !HasPrefix(items[n + 1].key, e.key) {
      assert m == n + 1;
    }
  }

  // ----- the iterator

  /** A forward cursor over an unchanging store. */
  class Iterator {
    const items: seq<ListItem>
    const prefix: Key
    const recurse: bool
    var done: bool
    var nextIndex: nat
    var lastPrefix: Key
    var wasPrefix: bool

    ghost predicate Valid()
      reads this
    {
      && SortedStore(items) && nextIndex <= |items| && AllFrom(items, nextIndex, prefix)
      && (wasPrefix ==> !recurse && CollapsedPrefix(lastPrefix, prefix) && AllFrom(items, nextIndex, lastPrefix))
    }

    /** The items of the current collapsed prefix are still to be skipped. */
    ghost predicate Skipping()
      reads this
    {
      wasPrefix && nextIndex < |items| && HasPrefix(items[nextIndex].key, lastPrefix)
    }

    /** The index that the walk continues from. */
    ghost function Position(): (n: nat)
      requires Valid()
      reads this
      ensures n <= |items|
    {
      if Skipping() then IndexOf(items, AfterPrefixOf(lastPrefix)) else nextIndex
    }

    /** The list entries that the iterator has not produced yet. */
    ghost function Remaining(): seq<ListItem>
      requires Valid()
      reads this
    {
      if done then [] else Entries(items, Position(), prefix, recurse)
    }

    /** PositionToFirst: the iterator starts at `first`, or at the prefix when `first` is before it. */
    constructor (items: seq<ListItem>, prefix: Key, first: Key, recurse: bool)
      requires SortedStore(items)
      ensures Valid() && !done && this.prefix == prefix && this.recurse == recurse
      ensures Remaining() ==
        Entries(items, IndexOf(items, if first == [] || Less(first, prefix) then prefix else first), prefix, recurse)
    {
      this.items, this.prefix, this.recurse := items, prefix, recurse;
      done, lastPrefix, wasPrefix := false, [], false;
      var from := if first == [] || Less(first, prefix) then prefix else first;
      nextIndex := IndexOf(items, from);
      new;
      forall i | nextIndex <= i < |items|
        ensures !Less(items[i].key, prefix)
      {
        AtOrAfterIndexOf(items, from, i);
        LessTrichotomy(from, prefix);
        LessTrichotomy(items[i].key, from);
        if Less(items[i].key, prefix) && from != prefix {
          LessTransitive(items[i].key, prefix, from);
        }
      }
    }

    /** The next item under the cursor. */
    method Advance() returns (item: Option<ListItem>)
      requires Valid()
      modifies this
      ensures done == (old(done) || old(nextIndex) == |items|) && item.None? == done
      ensures item.Some? ==> item.value == items[old(nextIndex)] && nextIndex == old(nextIndex) + 1
      ensures item.None? ==> nextIndex == old(nextIndex)
      ensures lastPrefix == old(lastPrefix) && wasPrefix == old(wasPrefix)
    {
      if done {
        return None;
      }
      if nextIndex >= |items| {
        done := true;
        return None;
      }
      item := Some(items[nextIndex]);
      nextIndex := nextIndex + 1;
    }

    /** The next item that does not belong to the collapsed prefix produced last. */
    method Seek() returns (item: Option<ListItem>)
      requires Valid()
      modifies this
      ensures Valid() && AllFrom(items, old(Position()), prefix)
      ensures item.None? <==> old(done) || old(Position()) == |items|
      ensures item.None? ==> done
      ensures item.Some? ==> item.value == items[old(Position())] && nextIndex == old(Position()) + 1 && !done
      ensures item.Some? && wasPrefix ==> !HasPrefix(item.value.key, lastPrefix) && !Less(item.value.key, lastPrefix)
    {
      if wasPrefix && nextIndex < |items| && HasPrefix(items[nextIndex].key, lastPrefix) {
        SkipsExactly(items, nextIndex, prefix, lastPrefix);
      }
      item := Advance();
      if item.None? {
        return;
      }
      if !recurse && wasPrefix && HasPrefix(item.value.key, lastPrefix) {
        nextIndex := IndexOf(items, AfterPrefixOf(lastPrefix));
        item := Advance();
        if item.None? {
          return;
        }
        wasPrefix := false;
      }
    }

    /** Next produces the entries of the listing in order, and nothing else. */
    method Next() returns (item: Option<ListItem>)
      requires Valid()
      modifies this
      ensures Valid()
      ensures item.None? <==> old(Remaining()) == []
      ensures item.None? ==> Remaining() == []
      ensures item.Some? ==> [item.value] + Remaining() == old(Remaining())
    {
      ghost var start := Position();
      var next := Seek();
      if next.None? {
        return None;
      }
      if !HasPrefix(next.value.key, prefix) {
        PastThePrefix(items, start, prefix, recurse);
        done := true;
        return None;
      }
      var e := Produce(next.value);
      return Some(e);
    }

    /** The list entry of the item just read; a collapsed one is remembered as the last prefix. */
    method Produce(item: ListItem) returns (e: ListItem)
      requires Valid() && !done && nextIndex > 0 && item == items[nextIndex - 1]
      requires AllFrom(items, nextIndex - 1, prefix)
      requires HasPrefix(item.key, prefix)
      requires wasPrefix ==> !HasPrefix(item.key, lastPrefix) && !Less(item.key, lastPrefix)
      modifies this
      ensures Valid()
      ensures [e] + Remaining() == Entries(items, old(nextIndex) - 1, prefix, recurse)
    {
      ghost var start := nextIndex - 1;
      e := Entry(item, prefix, recurse);
      ProducesEntry(items, start, prefix, recurse);
      if e.isPrefix {
        lastPrefix, wasPrefix := e.key, true;
      } else if wasPrefix && nextIndex < |items| {
        PrefixContiguous(lastPrefix, item.key, items[nextIndex].key);
      }
      assert Position() == Following(items, start, e);
    }
  }

  // ----- listing calls

  datatype ListOptions = ListOptions(prefix: Key, startAfter: Key, recursive: bool, includeValue: bool, limit: int)

  ghost predicate HavePrefix(es: seq<ListItem>, prefix: Key) {
    forall e :: e in es ==> HasPrefix(e.key, prefix)
  }

  lemma PageOfRelative(es: seq<ListItem>, prefix: Key, limit: nat)
    requires HavePrefix(es, prefix)
    ensures |Relative(es, prefix)| == |es| && HavePrefix(Page(es, limit), prefix)
    ensures Relative(Page(es, limit), prefix) == Page(Relative(es, prefix), limit)
  {
  }

  lemma PresentNext(taken: seq<ListItem>, e: ListItem, opts: ListOptions)
    requires HavePrefix(taken, opts.prefix) && HasPrefix(e.key, opts.prefix)
    ensures HavePrefix(taken + [e], opts.prefix)
    ensures Presented(Relative(taken + [e], opts.prefix), opts.includeValue) ==
      Presented(Relative(taken, opts.prefix), opts.includeValue) + [Present(Strip(e, opts.prefix), opts.includeValue)]
  {
  }

  /** The loop over the iterator: it takes up to `limit` entries, not counting a first one that is
      the start key itself, and looks one entry further to tell whether more follow. */
  method Consume(it: Iterator, opts: ListOptions, limit: int) returns (result: seq<ListItem>, more: bool)
    requires it.Valid() && HavePrefix(it.Remaining(), opts.prefix)
    modifies it
    ensures limit >= 1 ==>
      var es := SkipStart(old(it.Remaining()), opts.prefix + opts.startAfter);
      && HavePrefix(Page(es, limit), opts.prefix)
      && result == Presented(Relative(Page(es, limit), opts.prefix), opts.includeValue)
      && (more <==> |es| > limit)
    ensures limit < 1 ==> result == [] && (more <==> old(it.Remaining()) != [])
  {
    result, more := [], true;
    var left, skipFirst := limit, true;
    ghost var taken, rest := [], it.Remaining();
    ghost var es := SkipStart(rest, opts.prefix + opts.startAfter);
    while left > 0
      invariant it.Valid() && rest == it.Remaining()
      invariant |taken| == limit - left && (limit >= 1 ==> left >= 0)
      invariant if skipFirst then taken == [] && rest == old(it.Remaining()) else limit >= 1 && taken + rest == es
      invariant HavePrefix(taken, opts.prefix) && HavePrefix(rest, opts.prefix)
      invariant result == Presented(Relative(taken, opts.prefix), opts.includeValue)
      decreases left, skipFirst
    {
      var item := it.Next();
      if item.None? {
        more := false;
        assert taken == Page(es, limit);
        return;
      }
      var relative := Strip(item.value, opts.prefix);
      rest := it.Remaining();
      if skipFirst {
        skipFirst := false;
        assert item.value.key == opts.prefix + relative.key;
        if relative.key == opts.startAfter {
          // the start key itself does not count against the limit
          continue;
        }
      }
      Associates(taken, [item.value], rest);
      PresentNext(taken, item.value, opts);
      taken := taken + [item.value];
      result := result + [Present(relative, opts.includeValue)];
      left := left - 1;
    }
    var next := it.Next();
    more := next.Some?;
    assert !skipFirst ==> taken == Page(es, limit);
  }

  /** ListV2 returns the page of the listing after StartAfter, and says whether more items follow it.
      With a lookup limit below one it returns nothing and only looks whether the walk has an entry. */
  method ListV2(items: seq<ListItem>, lookupLimit: int, opts: ListOptions) returns (result: seq<ListItem>, more: bool)
    requires SortedStore(items)
    ensures lookupLimit >= 1 ==>
      var rs := After(items, opts.prefix, opts.recursive, opts.startAfter);
      var limit := EffectiveLimit(opts.limit, lookupLimit);
      && result == Presented(Page(rs, limit), opts.includeValue)
      && (more <==> |rs| > limit)
    ensures lookupLimit < 1 ==>
      && result == []
      && (more <==> Entries(items, IndexOf(items, opts.prefix + opts.startAfter), opts.prefix, opts.recursive) != [])
    ensures lookupLimit >= 1 && (opts.recursive || OwnForm(opts.startAfter)) ==>
      var limit := if 1 <= opts.limit <= lookupLimit then opts.limit else lookupLimit;
      IsPage(items, opts.prefix, opts.recursive, opts.includeValue, opts.startAfter, limit, result, more)
  {
    var limit := opts.limit;
    if limit <= 0 || limit > lookupLimit {
      limit := lookupLimit;
    }
    var firstFull: Key := [];
    if opts.startAfter != [] {
      firstFull := opts.prefix + opts.startAfter;
    }
    PrefixNotBefore(opts.prefix + opts.startAfter, opts.prefix);
    assert opts.prefix + [] == opts.prefix;
    var it := new Iterator(items, opts.prefix, firstFull, opts.recursive);
    EntriesHavePrefix(items, IndexOf(items, opts.prefix + opts.startAfter), opts.prefix, opts.recursive);
    result, more := Consume(it, opts, limit);
    if limit >= 1 {
      PageOfRelative(Walked(items, opts.prefix, opts.recursive, opts.startAfter), opts.prefix, limit);
      CallIsPage(items, opts, limit);
    }
  }

  lemma CallIsPage(items: seq<ListItem>, opts: ListOptions, limit: nat)
    requires SortedStore(items)
    ensures var rs := After(items, opts.prefix, opts.recursive, opts.startAfter);
            opts.recursive || OwnForm(opts.startAfter) ==>
              IsPage(items, opts.prefix, opts.recursive, opts.includeValue, opts.startAfter, limit,
                     Presented(Page(rs, limit), opts.includeValue), |rs| > limit)
  {
    if opts.recursive || OwnForm(opts.startAfter) {
      ListingIsAll(items, opts.prefix, opts.recursive, opts.startAfter);
      FirstArePage(items, opts.prefix, opts.recursive, opts.includeValue, opts.startAfter,
                   After(items, opts.prefix, opts.recursive, opts.startAfter), limit);
    }
  }

  lemma PagesJoin(full: seq<ListItem>, k: nat, k': nat, includeValue: bool)
    requires k <= k' <= |full|
    ensures Presented(full[..k], includeValue) + Presented(full[k..k'], includeValue) ==
      Presented(full[..k'], includeValue)
  {
  }

  lemma PageMovesOn(full: seq<ListItem>, k: nat, limit: nat) returns (k': nat)
    requires k <= |full| && limit >= 1
    ensures k <= k' <= |full| && Page(full[k..], limit) == full[k..k']
    ensures (|full[k..]| > limit <==> k' < |full|) && (k' < |full| ==> k < k')
  {
    k' := if |full| - k <= limit then |full| else k + limit;
  }

  lemma PresentedLast(full: seq<ListItem>, k: nat, k': nat, includeValue: bool)
    requires k < k' <= |full|
    ensures var page := Presented(full[k..k'], includeValue); page != [] && page[|page| - 1].key == full[k' - 1].key
  {
  }

  /** What a call that continues behind the first k items returns. */
  lemma PageFollows(items: seq<ListItem>, opts: ListOptions, limit: nat, k: nat) returns (k': nat)
    requires SortedStore(items) && limit >= 1 && k <= |Full(items, opts.prefix, opts.recursive)|
    requires opts.startAfter == StartKey(Full(items, opts.prefix, opts.recursive), k)
    ensures var full := Full(items, opts.prefix, opts.recursive);
            && After(items, opts.prefix, opts.recursive, opts.startAfter) == full[k..]
            && k <= k' <= |full| && Page(full[k..], limit) == full[k..k'] && (|full[k..]| > limit <==> k' < |full|)
            && (k' < |full| ==>
                 && k < k'
                 && var page := Presented(full[k..k'], opts.includeValue);
                    page != [] && page[|page| - 1].key == full[k' - 1].key)
  {
    var full := Full(items, opts.prefix, opts.recursive);
    CallsResume(items, opts.prefix, opts.recursive);
    assert Calls(items, opts.prefix, opts.recursive)(opts.startAfter) == full[k..];
    k' := PageMovesOn(full, k, limit);
    if k < k' {
      PresentedLast(full, k, k', opts.includeValue);
    }
  }

  /** One call that continues behind the first k items of the listing. */
  method NextPage(items: seq<ListItem>, lookupLimit: int, opts: ListOptions, ghost k: nat)
      returns (result: seq<ListItem>, more: bool, ghost k': nat)
    requires SortedStore(items) && lookupLimit >= 1 && k <= |Full(items, opts.prefix, opts.recursive)|
    requires opts.startAfter == StartKey(Full(items, opts.prefix, opts.recursive), k)
    ensures var rest, limit := Full(items, opts.prefix, opts.recursive)[k..], EffectiveLimit(opts.limit, lookupLimit);
            result == Presented(Page(rest, limit), opts.includeValue) && (more <==> |rest| > limit)
    ensures var full := Full(items, opts.prefix, opts.recursive);
            && k <= k' <= |full| && result == Presented(full[k..k'], opts.includeValue)
            && (more <==> k' < |full|) && (more ==> k < k' && result[|result| - 1].key == full[k' - 1].key)
  {
    k' := PageFollows(items, opts, EffectiveLimit(opts.limit, lookupLimit), k);
    result, more := ListV2(items, lookupLimit, opts);
  }

  /** Calling ListV2 until `more` is false, each time with StartAfter set to the last returned key and
      any limit, ends and collects exactly the sorted listing of all non-empty relative keys. */
  method ListAll(items: seq<ListItem>, lookupLimit: int, opts: ListOptions, limits: nat -> int)
      returns (all: seq<ListItem>)
    requires SortedStore(items) && lookupLimit >= 1
    ensures var full := Full(items, opts.prefix, opts.recursive);
            && all == Presented(full, opts.includeValue)
            && SortedByKey(full)
            && forall r :: r in full <==>
               r.key != [] && HasEntry(items, 0, opts.prefix, opts.recursive, r.(key := opts.prefix + r.key))
    ensures SortedByKey(all)
    ensures forall r :: r in all <==>
      r.key != [] && Listed(items, opts.prefix, opts.recursive, opts.includeValue, r)
  {
    ghost var full := Full(items, opts.prefix, opts.recursive);
    var startAfter: Key, more, calls := [], true, 0;
    ghost var k := 0;
    all := [];
    assert full[..0] == [];
    while more
      invariant k <= |full| && all == Presented(full[..k], opts.includeValue)
      invariant more ==> startAfter == StartKey(full, k)
      invariant !more ==> k == |full|
      decreases |full| - k, more
    {
      var result;
      ghost var before := k;
      result, more, k := NextPage(items, lookupLimit, opts.(startAfter := startAfter, limit := limits(calls)), k);
      PagesJoin(full, before, k, opts.includeValue);
      all := all + result;
      calls := calls + 1;
      if more {
        startAfter := result[|result| - 1].key;
      }
    }
    assert full[..k] == full;
    AfterIsListing(items, opts.prefix, opts.recursive, []);
    FullIsListed(items, opts.prefix, opts.recursive, opts.includeValue, full);
  }

  lemma FullIsListed(items: seq<ListItem>, prefix: Key, recurse: bool, includeValue: bool, full: seq<ListItem>)
    requires SortedStore(items) && full == Full(items, prefix, recurse)
    ensures SortedByKey(Presented(full, includeValue))
    ensures forall r :: r in Presented(full, includeValue) <==>
      r.key != [] && Listed(items, prefix, recurse, includeValue, r)
  {
    ListingIsAll(items, prefix, recurse, []);
    FirstArePage(items, prefix, recurse, includeValue, [], full, |full|);
    forall r: ListItem | r.key != [] && Listed(items, prefix, recurse, includeValue, r)
      ensures r in Presented(full, includeValue)
    {
      if r !in Presented(full, includeValue) {
        assert Missing(items, prefix, recurse, includeValue, [], Presented(full, includeValue), r);
      }
    }
  }

  lemma {:induction false} RecursiveEntries(items: seq<ListItem>, n: nat)
    requires SortedStore(items) && n <= |items|
    ensures Entries(items, n, [], true) == items[n..]
    decreases |items| - n
  {
    if n == |items| {
    } else {
      RecursiveEntries(items, n + 1);
      if n + 1 < |items| {
        LessTrichotomy(items[n].key, items[n + 1].key);
      }
    }
  }

  function KeysOf(items: seq<ListItem>): seq<Key> {
    seq(|items|, i requires 0 <= i < |items| => items[i].key)
  }

  /** The loop of ListKeys over the iterator. */
  method ConsumeKeys(it: Iterator, limit: nat) returns (keys: seq<Key>)
    requires it.Valid()
    modifies it
    ensures keys == KeysOf(Page(old(it.Remaining()), limit))
  {
    keys := [];
    var left := limit;
    ghost var taken, rest := [], it.Remaining();
    while left > 0
      invariant it.Valid() && rest == it.Remaining()
      invariant |taken| == limit - left && taken + rest == old(it.Remaining())
      invariant keys == KeysOf(taken)
    {
      var item := it.Next();
      if item.None? {
        break;
      }
      rest := it.Remaining();
      Associates(taken, [item.value], rest);
      taken := taken + [item.value];
      keys := keys + [item.value.key];
      left := left - 1;
    }
    assert taken == Page(old(it.Remaining()), limit);
  }

  /** The keys of the stored items from the first one at or after `first` on, as many as there are up to a limit. */
  ghost predicate KeysFrom(items: seq<ListItem>, first: Key, limit: nat, keys: seq<Key>) {
    exists n :: 0 <= n <= |items| && KeysAt(items, first, limit, keys, n)
  }

  ghost predicate KeysAt(items: seq<ListItem>, first: Key, limit: nat, keys: seq<Key>, n: nat)
    requires n <= |items|
  {
    && (forall i :: 0 <= i < |items| ==> (Less(items[i].key, first) <==> i < n))
    && |keys| == (if |items| - n <= limit then |items| - n else limit)
    && forall k :: 0 <= k < |keys| ==> keys[k] == items[n + k].key
  }

  lemma FirstKeys(items: seq<ListItem>, first: Key, limit: nat)
    requires SortedStore(items)
    ensures KeysFrom(items, first, limit, KeysOf(Page(items[IndexOf(items, first)..], limit)))
  {
    var n := IndexOf(items, first);
    forall i | 0 <= i < |items|
      ensures Less(items[i].key, first) <==> i < n
    {
      AtOrAfterIndexOf(items, first, i);
    }
    assert KeysAt(items, first, limit, KeysOf(Page(items[n..], limit)), n);
  }

  /** ListKeys returns the keys of the first items at or after `first`, up to the capped limit. */
  method ListKeys(items: seq<ListItem>, lookupLimit: nat, first: Key, limit: int) returns (keys: seq<Key>)
    requires SortedStore(items)
    ensures keys == KeysOf(Page(items[IndexOf(items, first)..], EffectiveLimit(limit, lookupLimit)))
    ensures KeysFrom(items, first, if 1 <= limit <= lookupLimit then limit else lookupLimit, keys)
  {
    var left := limit;
    if left <= 0 || left > lookupLimit {
      left := lookupLimit;
    }
    var it := new Iterator(items, [], first, true);
    RecursiveEntries(items, IndexOf(items, first));
    FirstKeys(items, first, left);
    keys := ConsumeKeys(it, left);
  }
}
