/** What a listing returns, said of the stored items one by one (storage/listv2.go). */
module ListingResults {
  import opened Sequences
  import opened Keys
  import opened Listing
  import opened Paging

  /** A listed item is handed out with its value, or without it. */
  function Present(item: ListItem, includeValue: bool): ListItem {
    if includeValue then item else item.(value := [])
  }

  function Presented(rs: seq<ListItem>, includeValue: bool): seq<ListItem> {
    seq(|rs|, i requires 0 <= i < |rs| => Present(rs[i], includeValue))
  }

  /** A key with no delimiter before its last byte. */
  predicate OwnForm(r: Key) {
    forall k :: 0 <= k < |r| - 1 ==> r[k] != DELIMITER
  }

  /** A result, relative to the prefix: a stored item, with its value if values are included; or, when the listing
      is not recursive, one entry for all items below a key that ends in its first delimiter. */
  ghost predicate Listed(items: seq<ListItem>, prefix: Key, recurse: bool, includeValue: bool, r: ListItem) {
    if r.isPrefix then
      && !recurse && r.value == [] && r.key != [] && r.key[|r.key| - 1] == DELIMITER && OwnForm(r.key)
      && exists n :: 0 <= n < |items| && HasPrefix(items[n].key, prefix + r.key)
    else
      && (recurse || DELIMITER !in r.key)
      && exists n :: 0 <= n < |items| && items[n].key == prefix + r.key
                     && r.value == (if includeValue then items[n].value else [])
  }

  /** One page: at most `limit` results after the start key, the first ones in order, and whether more follow. */
  ghost predicate IsPage(items: seq<ListItem>, prefix: Key, recurse: bool, includeValue: bool, start: Key, limit: int,
                         result: seq<ListItem>, more: bool) {
    && SortedByKey(result) && |result| <= limit
    && (forall r :: r in result ==> Listed(items, prefix, recurse, includeValue, r) && Less(start, r.key))
    && (forall r :: Missing(items, prefix, recurse, includeValue, start, result, r) ==>
         more && forall k :: 0 <= k < |result| ==> Less(result[k].key, r.key))
    && (more ==> |result| == limit
                 && exists r :: Missing(items, prefix, recurse, includeValue, start, result, r))
  }

  /** Something that the page has left out. */
  ghost predicate Missing(items: seq<ListItem>, prefix: Key, recurse: bool, includeValue: bool, start: Key,
                          result: seq<ListItem>, r: ListItem) {
    Listed(items, prefix, recurse, includeValue, r) && Less(start, r.key) && r !in result
  }

  // ----- collapsed keys

  lemma {:induction false} OwnFormIsCut(r: Key)
    ensures Cut(r) == r <==> OwnForm(r)
  {
    if |r| <= 1 {
      assert r != [] ==> r == [r[0]];
    } else {
      var rest := r[1..];
      OwnFormIsCut(rest);
      assert r == [r[0]] + rest;
      assert r[0] != DELIMITER ==> Cut(r)[1..] == Cut(rest);
      assert OwnForm(r) <==> r[0] != DELIMITER && OwnForm(rest) by {
        assert forall k :: 0 <= k < |rest| ==> rest[k] == r[k + 1];
      }
    }
  }

  lemma {:induction false} CutEnds(r: Key)
    requires DELIMITER in r
    ensures Cut(r) != [] && Cut(r)[|Cut(r)| - 1] == DELIMITER
  {
    if r[0] != DELIMITER {
      CutEnds(r[1..]);
    }
  }

  lemma OwnCutEnds(r: Key)
    requires DELIMITER in r && Cut(r) == r
    ensures r != [] && r[|r| - 1] == DELIMITER
  {
    CutEnds(r);
  }

  lemma UnderPrefix(key: Key, prefix: Key, r: Key)
    ensures HasPrefix(key, prefix) && key[|prefix|..] == r <==> key == prefix + r
    ensures HasPrefix(key, prefix) && HasPrefix(key[|prefix|..], r) <==> HasPrefix(key, prefix + r)
  {
    if HasPrefix(key, prefix) {
      assert key == prefix + key[|prefix|..];
      if HasPrefix(key[|prefix|..], r) {
        assert key == prefix + (r + key[|prefix|..][|r|..]);
        assert prefix + (r + key[|prefix|..][|r|..]) == prefix + r + key[|prefix|..][|r|..];
      }
    }
    if HasPrefix(key, prefix + r) {
      assert key[..|prefix|] == prefix;
      assert key[|prefix|..][..|r|] == r;
    }
  }

  // ----- entries are what is listed

  /** The n-th item shows up as the entry `r`. */
  lemma ItemIsListed(items: seq<ListItem>, prefix: Key, recurse: bool, n: nat, r: ListItem)
    requires SortedStore(items) && n < |items| && HasPrefix(items[n].key, prefix)
    requires Entry(items[n], prefix, recurse) == r.(key := prefix + r.key)
    ensures Listed(items, prefix, recurse, true, r)
  {
    var rel := items[n].key[|prefix|..];
    EntryKey(items[n], prefix, recurse);
    CutFacts(rel);
    assert (prefix + r.key)[|prefix|..] == r.key;
    if r.isPrefix {
      CutEnds(rel);
      OwnFormIsCut(r.key);
    } else {
      assert items[n].key == prefix + r.key;
    }
  }

  lemma ListedIsEntry(items: seq<ListItem>, prefix: Key, recurse: bool, r: ListItem) returns (n: nat)
    requires SortedStore(items) && Listed(items, prefix, recurse, true, r)
    ensures n < |items| && HasPrefix(items[n].key, prefix)
    ensures Entry(items[n], prefix, recurse) == r.(key := prefix + r.key)
  {
    if r.isPrefix {
      n :| 0 <= n < |items| && HasPrefix(items[n].key, prefix + r.key);
      UnderPrefix(items[n].key, prefix, r.key);
      OwnFormIsCut(r.key);
      CutAbsorbs(r.key, items[n].key[|prefix|..]);
    } else {
      n :| 0 <= n < |items| && items[n].key == prefix + r.key && r.value == items[n].value;
      UnderPrefix(items[n].key, prefix, r.key);
    }
  }

  /** The entries of a listing are exactly what is listed with values. */
  lemma EntriesAreListed(items: seq<ListItem>, prefix: Key, recurse: bool, r: ListItem)
    requires SortedStore(items)
    ensures HasEntry(items, 0, prefix, recurse, r.(key := prefix + r.key)) <==> Listed(items, prefix, recurse, true, r)
  {
    if HasEntry(items, 0, prefix, recurse, r.(key := prefix + r.key)) {
      var n :| 0 <= n < |items| && HasPrefix(items[n].key, prefix)
               && Entry(items[n], prefix, recurse) == r.(key := prefix + r.key);
      ItemIsListed(items, prefix, recurse, n, r);
    }
    if Listed(items, prefix, recurse, true, r) {
      var n := ListedIsEntry(items, prefix, recurse, r);
    }
  }

  /** What is listed without values is what is listed with them, once the values are dropped. */
  lemma ListedWithout(items: seq<ListItem>, prefix: Key, recurse: bool, includeValue: bool, r: ListItem)
      returns (full: ListItem)
    requires Listed(items, prefix, recurse, includeValue, r)
    ensures Listed(items, prefix, recurse, true, full) && Present(full, includeValue) == r && full.key == r.key
  {
    if r.isPrefix || includeValue {
      full := r;
    } else {
      var n :| 0 <= n < |items| && items[n].key == prefix + r.key;
      full := r.(value := items[n].value);
    }
  }

  lemma PresentIsListed(items: seq<ListItem>, prefix: Key, recurse: bool, includeValue: bool, full: ListItem)
    requires Listed(items, prefix, recurse, true, full)
    ensures Listed(items, prefix, recurse, includeValue, Present(full, includeValue))
  {
    if !full.isPrefix {
      var n :| 0 <= n < |items| && items[n].key == prefix + full.key && full.value == items[n].value;
    }
  }

  /** A sorted sequence that holds everything listed after the start key, each with its value. */
  ghost predicate IsAll(items: seq<ListItem>, prefix: Key, recurse: bool, start: Key, rs: seq<ListItem>) {
    && SortedByKey(rs)
    && forall r :: r in rs <==> Listed(items, prefix, recurse, true, r) && Less(start, r.key)
  }

  lemma ListingIsAll(items: seq<ListItem>, prefix: Key, recurse: bool, start: Key)
    requires SortedStore(items) && (recurse || OwnForm(start))
    ensures IsAll(items, prefix, recurse, start, After(items, prefix, recurse, start))
  {
    OwnFormIsCut(start);
    AfterIsListing(items, prefix, recurse, start);
    forall r
      ensures r in After(items, prefix, recurse, start) <==>
        Listed(items, prefix, recurse, true, r) && Less(start, r.key)
    {
      EntriesAreListed(items, prefix, recurse, r);
    }
  }

  /** The results of a page, presented, are listed. */
  lemma ResultIsListed(items: seq<ListItem>, prefix: Key, recurse: bool, includeValue: bool, start: Key,
                       rs: seq<ListItem>, limit: nat, r: ListItem)
    requires IsAll(items, prefix, recurse, start, rs) && r in Presented(Page(rs, limit), includeValue)
    ensures Listed(items, prefix, recurse, includeValue, r) && Less(start, r.key)
  {
    var page := Page(rs, limit);
    var k :| 0 <= k < |page| && Presented(page, includeValue)[k] == r;
    assert rs[k] in rs;
    PresentIsListed(items, prefix, recurse, includeValue, rs[k]);
  }

  /** What is listed and not on the page comes behind it. */
  lemma MissingIsBehind(items: seq<ListItem>, prefix: Key, recurse: bool, includeValue: bool, start: Key,
                        rs: seq<ListItem>, limit: nat, r: ListItem)
    requires IsAll(items, prefix, recurse, start, rs)
    requires Missing(items, prefix, recurse, includeValue, start, Presented(Page(rs, limit), includeValue), r)
    ensures |rs| > limit && forall k :: 0 <= k < limit ==> Less(rs[k].key, r.key)
  {
    var full := ListedWithout(items, prefix, recurse, includeValue, r);
    var k :| 0 <= k < |rs| && rs[k] == full;
    if k < |Page(rs, limit)| {
      assert Presented(Page(rs, limit), includeValue)[k] == r;
    }
  }

  /** Behind a full page something is missing when there is more. */
  lemma MoreIsMissing(items: seq<ListItem>, prefix: Key, recurse: bool, includeValue: bool, start: Key,
                      rs: seq<ListItem>, limit: nat)
    requires IsAll(items, prefix, recurse, start, rs) && |rs| > limit
    ensures var result := Presented(Page(rs, limit), includeValue);
            Missing(items, prefix, recurse, includeValue, start, result, Present(rs[limit], includeValue))
  {
    var result, r := Presented(Page(rs, limit), includeValue), Present(rs[limit], includeValue);
    assert rs[limit] in rs;
    PresentIsListed(items, prefix, recurse, includeValue, rs[limit]);
    forall k | 0 <= k < |result|
      ensures result[k] != r
    {
      LessTrichotomy(rs[k].key, rs[limit].key);
    }
  }

  /** The first results of a whole listing are a page. */
  lemma FirstArePage(items: seq<ListItem>, prefix: Key, recurse: bool, includeValue: bool, start: Key,
                     rs: seq<ListItem>, limit: nat)
    requires IsAll(items, prefix, recurse, start, rs)
    ensures IsPage(items, prefix, recurse, includeValue, start, limit, Presented(Page(rs, limit), includeValue),
                   |rs| > limit)
  {
    var result := Presented(Page(rs, limit), includeValue);
    forall r | r in result
      ensures Listed(items, prefix, recurse, includeValue, r) && Less(start, r.key)
    {
      ResultIsListed(items, prefix, recurse, includeValue, start, rs, limit, r);
    }
    forall r | Missing(items, prefix, recurse, includeValue, start, result, r)
      ensures |rs| > limit && forall k :: 0 <= k < |result| ==> Less(result[k].key, r.key)
    {
      MissingIsBehind(items, prefix, recurse, includeValue, start, rs, limit, r);
    }
    if |rs| > limit {
      MoreIsMissing(items, prefix, recurse, includeValue, start, rs, limit);
    }
  }
}
