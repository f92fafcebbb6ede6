/** The order of byte strings and of `(Key, Timestamp)` pairs. */
module Bytes {
  import opened Types
  import opened Ordered

  /** `<` on `Vec<u8>`: lexicographic, a proper prefix first. */
  predicate Less(a: seq<byte>, b: seq<byte>) {
    b != [] && (a == [] || a[0] < b[0] || (a[0] == b[0] && Less(a[1..], b[1..])))
  }

  /** `<` on `(Key, Timestamp)`. */
  predicate VLess(a: VKey, b: VKey) {
    Less(a.key, b.key) || (a.key == b.key && a.ts < b.ts)
  }

  lemma LessIrreflexive(a: seq<byte>)
    ensures !Less(a, a)
  {
    if a != [] { LessIrreflexive(a[1..]); }
  }

  lemma {:induction false} LessTransitive(a: seq<byte>, b: seq<byte>, c: seq<byte>)
    requires Less(a, b) && Less(b, c)
    ensures Less(a, c)
  {
    if a != [] && a[0] == b[0] == c[0] { LessTransitive(a[1..], b[1..], c[1..]); }
  }

  lemma {:induction false} LessTotal(a: seq<byte>, b: seq<byte>)
    ensures a == b || Less(a, b) || Less(b, a)
  {
    if a != [] && b != [] && a[0] == b[0] {
      LessTotal(a[1..], b[1..]);
      assert a == [a[0]] + a[1..] && b == [b[0]] + b[1..];
    }
  }

  lemma LessIsOrder()
    ensures StrictOrder(Less)
  {
    forall a ensures !Less(a, a) { LessIrreflexive(a); }
    forall a, b, c | Less(a, b) && Less(b, c) ensures Less(a, c) { LessTransitive(a, b, c); }
    forall a, b ensures a == b || Less(a, b) || Less(b, a) { LessTotal(a, b); }
  }

  lemma VLessIsOrder()
    ensures StrictOrder(VLess)
  {
    LessIsOrder();
    forall a: VKey, b: VKey, c: VKey | VLess(a, b) && VLess(b, c) ensures VLess(a, c) {
      if Less(a.key, b.key) && Less(b.key, c.key) { LessTransitive(a.key, b.key, c.key); }
    }
    forall a: VKey ensures !VLess(a, a) { LessIrreflexive(a.key); }
    forall a: VKey, b: VKey ensures a == b || VLess(a, b) || VLess(b, a) { LessTotal(a.key, b.key); }
  }

  /** No key lies strictly between two versions of one key. */
  lemma KeyRun(k: Key, lo: Timestamp, hi: Timestamp, v: VKey)
    requires !VLess(v, VKey(k, lo)) && !VLess(VKey(k, hi), v)
    ensures v.key == k && lo <= v.ts <= hi
  {
    LessTotal(k, v.key);
  }

  /** Keys sharing a prefix are contiguous: whatever lies between two of them shares it too. */
  lemma {:induction false} PrefixContiguous(p: seq<byte>, a: seq<byte>, b: seq<byte>, c: seq<byte>)
    requires p <= a && p <= c
    requires !Less(b, a) && !Less(c, b)
    ensures p <= b
  {
    if p != [] {
      LessTotal(a, b);
      LessTotal(b, c);
      if a != b && b != c {
        assert a[0] == c[0] == p[0];
        assert b[0] == p[0];
        PrefixContiguous(p[1..], a[1..], b[1..], c[1..]);
        assert b == [b[0]] + b[1..] && p == [p[0]] + p[1..];
      }
    }
  }

  /** A prefix never follows what it is a prefix of. */
  lemma {:induction false} PrefixFirst(p: seq<byte>, a: seq<byte>)
    requires p <= a
    ensures !Less(a, p)
  {
    if p != [] { PrefixFirst(p[1..], a[1..]); }
  }
}
