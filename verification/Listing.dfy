/** What a listing of a sorted store means: entries under a prefix, collapsed at the first
    delimiter unless the listing is recursive (storage/common.go, storage/listv2.go). */
module Listing {
  import opened Sequences
  import opened Keys

  datatype ListItem = ListItem(key: Key, value: Value, isPrefix: bool)

  /** The items of a store: strictly increasing non-empty keys. */
  ghost predicate SortedStore(items: seq<ListItem>) {
    && SortedByKey(items)
    && forall i :: 0 <= i < |items| ==> items[i].key != [] && !items[i].isPrefix
  }

  ghost predicate SortedByKey(items: seq<ListItem>) {
    forall i, j :: 0 <= i < j < |items| ==> Less(items[i].key, items[j].key)
  }

  /** A relative key up to and including its first delimiter. */
  function Cut(r: Key): Key {
    if r == [] then []
    else if r[0] == DELIMITER then [r[0]]
    else [r[0]] + Cut(r[1..])
  }

  /** The list entry that a stored item shows up as. */
  function Entry(item: ListItem, prefix: Key, recurse: bool): ListItem
    requires HasPrefix(item.key, prefix)
  {
    var r := item.key[|prefix|..];
    if !recurse && DELIMITER in r then ListItem(prefix + Cut(r), [], true) else item
  }

  /** The entries of the items from the n-th on that lie under the prefix, equal neighbours merged. */
  function Entries(items: seq<ListItem>, n: nat, prefix: Key, recurse: bool): seq<ListItem>
    decreases |items| - n
  {
    if n >= |items| then []
    else
      var rest := Entries(items, n + 1, prefix, recurse);
      if !HasPrefix(items[n].key, prefix) then rest
      else
        var e := Entry(items[n], prefix, recurse);
        if rest != [] && rest[0] == e then rest else [e] + rest
  }

  /** The first index whose key is not before `key`. */
  function IndexOf(items: seq<ListItem>, key: Key): (n: nat)
    ensures n <= |items|
    ensures n < |items| ==> !Less(items[n].key, key)
    ensures forall i :: 0 <= i < n ==> Less(items[i].key, key)
  {
    Search(items, 0, key)
  }

  function Search(items: seq<ListItem>, from: nat, key: Key): (n: nat)
    requires from <= |items|
    ensures from <= n <= |items|
    ensures n < |items| ==> !Less(items[n].key, key)
    ensures forall i :: from <= i < n ==> Less(items[i].key, key)
    decreases |items| - from
  {
    if from == |items| || !Less(items[from].key, key) then from else Search(items, from + 1, key)
  }

  lemma AtOrAfterIndexOf(items: seq<ListItem>, key: Key, i: nat)
    requires SortedByKey(items) && i < |items|
    ensures i >= IndexOf(items, key) <==> !Less(items[i].key, key)
  {
    var n := IndexOf(items, key);
    if n < i && Less(items[i].key, key) {
      LessTransitive(items[n].key, items[i].key, key);
    }
  }

  // ----- collapsing keeps the order

  lemma {:induction false} CutMonotone(a: Key, b: Key)
    requires Less(a, b)
    ensures Cut(a) == Cut(b) || Less(Cut(a), Cut(b))
  {
    if a != [] && a[0] == b[0] != DELIMITER {
      CutMonotone(a[1..], b[1..]);
      assert Cut(a)[1..] == Cut(a[1..]) && Cut(b)[1..] == Cut(b[1..]);
    }
  }

  lemma {:induction false} CutFacts(r: Key)
    ensures HasPrefix(r, Cut(r)) && Cut(Cut(r)) == Cut(r)
    ensures DELIMITER !in r ==> Cut(r) == r
    ensures DELIMITER in Cut(r) <==> DELIMITER in r
    ensures r != [] ==> Cut(r) != []
  {
    if r != [] && r[0] != DELIMITER {
      CutFacts(r[1..]);
      assert r == [r[0]] + r[1..];
      assert Cut(r)[1..] == Cut(r[1..]);
    }
  }

  /** Every key below a collapsed prefix collapses to it. */
  lemma {:induction false} CutAbsorbs(p: Key, r: Key)
    requires DELIMITER in p && Cut(p) == p && HasPrefix(r, p)
    ensures Cut(r) == p && DELIMITER in r
  {
    if p[0] != DELIMITER {
      assert p[1..] == Cut(p)[1..] == Cut(p[1..]);
      CutAbsorbs(p[1..], r[1..]);
    }
  }

  lemma EntryKey(item: ListItem, prefix: Key, recurse: bool)
    requires HasPrefix(item.key, prefix) && !item.isPrefix
    ensures var e := Entry(item, prefix, recurse); var r := item.key[|prefix|..];
            && e.key == prefix + (if recurse then r else Cut(r))
            && HasPrefix(item.key, e.key) && HasPrefix(e.key, prefix)
            && (e.isPrefix <==> !recurse && DELIMITER in r)
            && e.key[|prefix|..] == (if recurse then r else Cut(r))
  {
    CutFacts(item.key[|prefix|..]);
    assert item.key == prefix + item.key[|prefix|..];
  }

  lemma EntryMonotone(a: ListItem, b: ListItem, prefix: Key, recurse: bool)
    requires HasPrefix(a.key, prefix) && HasPrefix(b.key, prefix) && !a.isPrefix && !b.isPrefix
    requires Less(a.key, b.key)
    ensures var ea, eb := Entry(a, prefix, recurse), Entry(b, prefix, recurse);
            ea == eb || Less(ea.key, eb.key)
  {
    var ra, rb := a.key[|prefix|..], b.key[|prefix|..];
    assert a.key == prefix + ra && b.key == prefix + rb;
    LessUnderPrefix(prefix, ra, rb);
    EntryKey(a, prefix, recurse);
    EntryKey(b, prefix, recurse);
    if !recurse {
      CutMonotone(ra, rb);
      LessUnderPrefix(prefix, Cut(ra), Cut(rb));
      CutFacts(ra);
      CutFacts(rb);
      LessTrichotomy(ra, rb);
    }
  }

  // ----- Entries is the sorted set of entries

  ghost predicate HasEntry(items: seq<ListItem>, n: nat, prefix: Key, recurse: bool, e: ListItem) {
    exists i :: n <= i < |items| && HasPrefix(items[i].key, prefix) && Entry(items[i], prefix, recurse) == e
  }

  lemma {:induction false} EntriesAreSorted(items: seq<ListItem>, n: nat, prefix: Key, recurse: bool)
    requires SortedStore(items)
    ensures SortedByKey(Entries(items, n, prefix, recurse))
    ensures forall e :: e in Entries(items, n, prefix, recurse) <==> HasEntry(items, n, prefix, recurse, e)
    decreases |items| - n
  {
    if n >= |items| {
    } else {
      EntriesAreSorted(items, n + 1, prefix, recurse);
      if HasPrefix(items[n].key, prefix) {
        PrependEntry(items, n, prefix, recurse, n + 1, Entries(items, n + 1, prefix, recurse));
      }
    }
  }

  lemma PrependEntry(items: seq<ListItem>, n: nat, prefix: Key, recurse: bool, m: nat, rest: seq<ListItem>)
    requires SortedStore(items) && n < |items| && HasPrefix(items[n].key, prefix)
    requires m == n + 1 && rest == Entries(items, m, prefix, recurse) && SortedByKey(rest)
    requires forall e :: e in rest <==> HasEntry(items, m, prefix, recurse, e)
    ensures SortedByKey(Entries(items, n, prefix, recurse))
    ensures forall e :: e in Entries(items, n, prefix, recurse) <==> e in rest || e == Entry(items[n], prefix, recurse)
  {
    var e := Entry(items[n], prefix, recurse);
    forall f | f in rest
      ensures f == e || Less(e.key, f.key)
    {
      var i :| m <= i < |items| && HasPrefix(items[i].key, prefix) && Entry(items[i], prefix, recurse) == f;
      EntryMonotone(items[n], items[i], prefix, recurse);
    }
    if rest != [] && rest[0] != e {
      assert rest[0] in rest;
      forall k | 0 <= k < |rest|
        ensures Less(e.key, rest[k].key)
      {
        if k > 0 {
          LessTransitive(e.key, rest[0].key, rest[k].key);
        }
      }
    }
  }

  /** Two strictly sorted lists with the same elements are the same list. */
  lemma {:induction false} SortedUnique(a: seq<ListItem>, b: seq<ListItem>)
    requires SortedByKey(a) && SortedByKey(b)
    requires forall e :: e in a <==> e in b
    ensures a == b
  {
    assert a == [] <==> b == [] by {
      if a != [] { assert a[0] in a; }
      if b != [] { assert b[0] in b; }
    }
    if a != [] {
      assert a[0] in b;
      assert b[0] in a;
      var i :| 0 <= i < |a| && a[i] == b[0];
      var j :| 0 <= j < |b| && b[j] == a[0];
      LessTrichotomy(a[0].key, b[0].key);
      assert a[0] == b[0];
      forall e
        ensures e in a[1..] <==> e in b[1..]
      {
        TailMembers(a, e);
        TailMembers(b, e);
      }
      SortedUnique(a[1..], b[1..]);
      assert a == [a[0]] + a[1..] && b == [b[0]] + b[1..];
    }
  }

  lemma TailMembers(a: seq<ListItem>, e: ListItem)
    requires SortedByKey(a) && a != []
    ensures e in a[1..] <==> e in a && e != a[0]
  {
    if e in a[1..] {
      var i :| 0 <= i < |a[1..]| && a[1..][i] == e;
      assert a[i + 1] == e;
      LessTrichotomy(a[0].key, e.key);
    }
    if e in a && e != a[0] {
      var i :| 0 <= i < |a| && a[i] == e;
      assert a[1..][i - 1] == e;
    }
  }

  // ----- the listing after a start key

  function Strip(e: ListItem, prefix: Key): ListItem
    requires HasPrefix(e.key, prefix)
  {
    e.(key := e.key[|prefix|..])
  }

  function Relative(es: seq<ListItem>, prefix: Key): (rs: seq<ListItem>)
    requires forall e :: e in es ==> HasPrefix(e.key, prefix)
  {
    seq(|es|, i requires 0 <= i < |es| => assert HasPrefix(es[i].key, prefix); Strip(es[i], prefix))
  }

  /** The requested listing: sorted relative keys strictly after `start`, nothing else. */
  ghost predicate IsListingAfter(rs: seq<ListItem>, items: seq<ListItem>, prefix: Key, recurse: bool, start: Key) {
    && SortedByKey(rs)
    && forall r :: r in rs <==> Less(start, r.key) && HasEntry(items, 0, prefix, recurse, r.(key := prefix + r.key))
  }

  /** The first entry is skipped when it is the start key itself. */
  function SkipStart(es: seq<ListItem>, key: Key): seq<ListItem> {
    if es != [] && es[0].key == key then es[1..] else es
  }

  /** The entries one call walks over: those of the items at or after the start key. */
  function Walked(items: seq<ListItem>, prefix: Key, recurse: bool, start: Key): seq<ListItem> {
    SkipStart(Entries(items, IndexOf(items, prefix + start), prefix, recurse), prefix + start)
  }

  /** What one call lists: the entries it walks over, relative to the prefix. */
  function After(items: seq<ListItem>, prefix: Key, recurse: bool, start: Key): seq<ListItem>
    requires SortedStore(items)
  {
    EntriesHavePrefix(items, IndexOf(items, prefix + start), prefix, recurse);
    Relative(Walked(items, prefix, recurse, start), prefix)
  }

  lemma EntriesHavePrefix(items: seq<ListItem>, n: nat, prefix: Key, recurse: bool)
    requires SortedStore(items)
    ensures forall e :: e in Entries(items, n, prefix, recurse) ==> HasPrefix(e.key, prefix)
  {
    EntriesAreSorted(items, n, prefix, recurse);
    forall e | e in Entries(items, n, prefix, recurse)
      ensures HasPrefix(e.key, prefix)
    {
      var i :| n <= i < |items| && HasPrefix(items[i].key, prefix) && Entry(items[i], prefix, recurse) == e;
      EntryKey(items[i], prefix, recurse);
    }
  }

  /** Walking from the start key reaches exactly the entries that sort after it,
      plus the entry that is the start key itself. */
  lemma EntriesFromStart(items: seq<ListItem>, prefix: Key, recurse: bool, start: Key, e: ListItem)
    requires SortedStore(items) && (recurse || Cut(start) == start)
    ensures HasEntry(items, IndexOf(items, prefix + start), prefix, recurse, e) <==>
      HasEntry(items, 0, prefix, recurse, e) && !Less(e.key, prefix + start)
  {
    var lo := IndexOf(items, prefix + start);
    forall i | 0 <= i < |items| && HasPrefix(items[i].key, prefix) && Entry(items[i], prefix, recurse) == e
      ensures i >= lo <==> !Less(e.key, prefix + start)
    {
      AtOrAfterIndexOf(items, prefix + start, i);
      EntryKey(items[i], prefix, recurse);
      var r := items[i].key[|prefix|..];
      assert items[i].key == prefix + r;
      LessUnderPrefix(prefix, r, start);
      LessUnderPrefix(prefix, Cut(r), start);
      if !recurse {
        CutAgainstStart(r, start);
      }
    }
  }

  lemma CutAgainstStart(r: Key, start: Key)
    requires Cut(start) == start
    ensures Less(Cut(r), start) <==> Less(r, start)
  {
    CutFacts(r);
    PrefixNotBefore(r, Cut(r));
    LessTrichotomy(r, start);
    LessTrichotomy(Cut(r), start);
    LessTrichotomy(r, Cut(r));
    if Less(Cut(r), start) && !Less(r, start) && r != start {
      CutMonotone(start, r);
      LessTrichotomy(start, Cut(r));
    }
    if Less(r, start) && !Less(Cut(r), start) {
      CutMonotone(r, start);
      if Cut(r) == start && DELIMITER in start {
        CutAbsorbs(start, r);
      }
    }
  }

  lemma WalkedEntries(items: seq<ListItem>, prefix: Key, recurse: bool, start: Key)
    requires SortedStore(items) && (recurse || Cut(start) == start)
    ensures SortedByKey(Walked(items, prefix, recurse, start))
    ensures forall e :: e in Walked(items, prefix, recurse, start) <==>
      HasEntry(items, 0, prefix, recurse, e) && Less(prefix + start, e.key)
  {
    var lo := IndexOf(items, prefix + start);
    EntriesAreSorted(items, lo, prefix, recurse);
    var es := Entries(items, lo, prefix, recurse);
    forall i | 0 <= i < |es|
      ensures !Less(es[i].key, prefix + start)
    {
      assert es[i] in es;
      EntriesFromStart(items, prefix, recurse, start, es[i]);
    }
    forall e
      ensures e in Walked(items, prefix, recurse, start) <==>
        HasEntry(items, 0, prefix, recurse, e) && Less(prefix + start, e.key)
    {
      EntriesFromStart(items, prefix, recurse, start, e);
      LessTrichotomy(e.key, prefix + start);
      SkippedMembers(es, prefix + start, e);
    }
  }

  lemma RelativeMembers(es: seq<ListItem>, prefix: Key, r: ListItem)
    requires forall e :: e in es ==> HasPrefix(e.key, prefix)
    ensures r in Relative(es, prefix) <==> r.(key := prefix + r.key) in es
  {
    var rs, e := Relative(es, prefix), r.(key := prefix + r.key);
    assert Strip(e, prefix) == r;
    if r in rs {
      var i :| 0 <= i < |rs| && rs[i] == r;
      assert es[i].key == prefix + es[i].key[|prefix|..];
      assert es[i] == e;
    }
    if e in es {
      var i :| 0 <= i < |es| && es[i] == e;
      assert rs[i] == r;
    }
  }

  lemma RelativeSorted(es: seq<ListItem>, prefix: Key)
    requires forall e :: e in es ==> HasPrefix(e.key, prefix)
    requires SortedByKey(es)
    ensures SortedByKey(Relative(es, prefix))
  {
    var rs := Relative(es, prefix);
    forall i, j | 0 <= i < j < |rs|
      ensures Less(rs[i].key, rs[j].key)
    {
      assert HasPrefix(es[i].key, prefix) && HasPrefix(es[j].key, prefix);
      assert es[i].key == prefix + rs[i].key && es[j].key == prefix + rs[j].key;
      LessUnderPrefix(prefix, rs[i].key, rs[j].key);
    }
  }

  /** One call walks exactly the listing after its start key, for every cursor that is
      its own collapsed form (in recursive mode: for every start key). */
  lemma AfterIsListing(items: seq<ListItem>, prefix: Key, recurse: bool, start: Key)
    requires SortedStore(items) && (recurse || Cut(start) == start)
    ensures IsListingAfter(After(items, prefix, recurse, start), items, prefix, recurse, start)
  {
    var es := Walked(items, prefix, recurse, start);
    WalkedEntries(items, prefix, recurse, start);
    EntriesHavePrefix(items, IndexOf(items, prefix + start), prefix, recurse);
    RelativeSorted(es, prefix);
    forall r
      ensures r in Relative(es, prefix) <==>
        Less(start, r.key) && HasEntry(items, 0, prefix, recurse, r.(key := prefix + r.key))
    {
      RelativeMembers(es, prefix, r);
      LessUnderPrefix(prefix, start, r.key);
    }
  }

  lemma SkippedMembers(es: seq<ListItem>, key: Key, e: ListItem)
    requires SortedByKey(es) && forall i :: 0 <= i < |es| ==> !Less(es[i].key, key)
    ensures e in SkipStart(es, key) <==> e in es && e.key != key
  {
    if es != [] {
      TailMembers(es, e);
      forall i | 0 < i < |es|
        ensures es[i].key != key
      {
        assert Less(es[0].key, es[i].key);
      }
      if e in es && e == es[0] {
        LessTrichotomy(e.key, e.key);
      }
    }
  }

  /** The cursor condition is exact: for any other start key some store makes the call
      return an entry that does not sort after it. */
  lemma CursorConditionExact(prefix: Key, recurse: bool, start: Key)
    ensures (forall items :: SortedStore(items) ==>
              IsListingAfter(After(items, prefix, recurse, start), items, prefix, recurse, start))
      <==> recurse || Cut(start) == start
  {
    if recurse || Cut(start) == start {
      forall items | SortedStore(items)
        ensures IsListingAfter(After(items, prefix, recurse, start), items, prefix, recurse, start)
      {
        AfterIsListing(items, prefix, recurse, start);
      }
    } else {
      CutFacts(start);
      var item := ListItem(prefix + start, [], false);
      var items := [item];
      assert SortedStore(items);
      assert item.key[|prefix|..] == start;
      LessTrichotomy(prefix + start, prefix + start);
      assert IndexOf(items, prefix + start) == 0;
      var e := ListItem(prefix + Cut(start), [], true);
      assert Entries(items, 1, prefix, recurse) == [];
      assert Entries(items, 0, prefix, recurse) == [e];
      var rs := After(items, prefix, recurse, start);
      assert rs[0].key == Cut(start);
      PrefixNotBefore(start, Cut(start));
      assert rs[0] in rs && !Less(start, rs[0].key);
    }
  }
}
