/** Keys of a key-value store: byte strings under lexicographic order
    (storage/common.go, storage/util.go). */
module Keys {
  import opened Sequences

  type Byte = b: int | 0 <= b < 256
  type Key = seq<Byte>
  type Value = seq<Byte>

  const DELIMITER: Byte := 47

  predicate HasPrefix(k: Key, p: Key) {
    p <= k
  }

  function NextKey(k: Key): Key {
    k + [0]
  }

  /** AfterPrefix on values: the last byte is incremented and wraps around at 256. */
  function AfterPrefixOf(k: Key): Key
    requires k != []
  {
    k[..|k| - 1] + [(k[|k| - 1] as int + 1) % 256]
  }

  /** AfterPrefix increments the last byte of a clone; an empty key has no last byte. */
  method AfterPrefix(key: array<Byte>) returns (after: array<Byte>)
    requires key.Length > 0
    ensures fresh(after) && key[..] == old(key[..])
    ensures after[..] == AfterPrefixOf(key[..])
  {
    after := new Byte[key.Length](i requires 0 <= i < key.Length reads key => key[i]);
    var last := after.Length - 1;
    after[last] := (after[last] as int + 1) % 256;
  }

  // ----- keys under lexicographic order

  /** Keys that share a prefix compare like what follows it. */
  lemma {:induction false} LessUnderPrefix(p: Key, a: Key, b: Key)
    ensures Less(p + a, p + b) == Less(a, b)
  {
    if p == [] {
      assert p + a == a && p + b == b;
    } else {
      assert (p + a)[1..] == p[1..] + a && (p + b)[1..] == p[1..] + b;
      LessUnderPrefix(p[1..], a, b);
    }
  }

  /** No key lies strictly between `k` and NextKey(k). */
  lemma {:induction false} NextKeyIsSuccessor(k: Key, x: Key)
    ensures Less(k, NextKey(k))
    ensures Less(k, x) <==> x == NextKey(k) || Less(NextKey(k), x)
  {
    if k != [] {
      assert NextKey(k)[1..] == NextKey(k[1..]);
      NextKeyIsSuccessor(k[1..], if x == [] then x else x[1..]);
      if x != [] {
        assert x == [x[0]] + x[1..];
      }
    } else if x != [] {
      assert x == NextKey(k) <==> x[0] == 0 && x[1..] == [];
    }
  }

  /** Keys at or after `p` that do not have `p` as a prefix sort after every key that does. */
  lemma {:induction false} PrefixContiguous(p: Key, a: Key, b: Key)
    requires !Less(a, p) && !HasPrefix(a, p) && (a == b || Less(a, b))
    ensures !HasPrefix(b, p) && !Less(b, p)
  {
    if a == b {
    } else if a[0] == p[0] && b[0] == p[0] {
      assert a == [a[0]] + a[1..] && b == [b[0]] + b[1..] && p == [p[0]] + p[1..];
      PrefixContiguous(p[1..], a[1..], b[1..]);
    }
  }

  lemma {:induction false} PrefixNotBefore(k: Key, p: Key)
    requires HasPrefix(k, p)
    ensures !Less(k, p)
  {
    if p == [] {
    } else {
      PrefixNotBefore(k[1..], p[1..]);
    }
  }

  /** When the last byte does not overflow, [p, AfterPrefix(p)) is exactly the keys with prefix p. */
  lemma {:induction false} PrefixRange(p: Key, k: Key)
    requires p != [] && p[|p| - 1] < 255
    ensures HasPrefix(k, p) <==> !Less(k, p) && Less(k, AfterPrefixOf(p))
  {
    if |p| == 1 {
      if k != [] {
        assert k == [k[0]] + k[1..];
      }
    } else if k != [] {
      assert AfterPrefixOf(p)[1..] == AfterPrefixOf(p[1..]);
      PrefixRange(p[1..], k[1..]);
      assert k == [k[0]] + k[1..] && p == [p[0]] + p[1..];
    }
  }

  lemma AfterPrefixWraps(q: Key)
    ensures AfterPrefixOf(q + [255]) == q + [0]
  {
    assert (q + [255])[..|q|] == q;
  }

  /** The range is right for every key exactly when the last byte of the prefix is below 0xFF:
      otherwise the wrapped bound sorts before p and the range is empty. */
  lemma PrefixRangeExact(p: Key)
    requires p != []
    ensures (forall k: Key :: HasPrefix(k, p) <==> !Less(k, p) && Less(k, AfterPrefixOf(p))) <==> p[|p| - 1] < 255
  {
    if p[|p| - 1] < 255 {
      forall k: Key
        ensures HasPrefix(k, p) <==> !Less(k, p) && Less(k, AfterPrefixOf(p))
      {
        PrefixRange(p, k);
      }
    } else {
      var q := p[..|p| - 1];
      assert p == q + [255];
      AfterPrefixWraps(q);
      LessUnderPrefix(q, [255], [0]);
      assert HasPrefix(p, p) && !Less(p, AfterPrefixOf(p));
    }
  }
}
