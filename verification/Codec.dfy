/**
  The binary record format. The byte layout is given once, as a function of the record; the encoder
  produces it and the decoder is proved to accept exactly its image and to invert it.
 */
module Codec {
  import opened Types
  import opened Arithmetic
  import opened Bytes

  datatype CodecError = Encode | Decode

  const CODEC_VERSION: byte := 0x02
  const RECORD_COMMITTED: byte := 0x01
  const RECORD_INTENT: byte := 0x02
  const FLAG_PRESENT: byte := 0x01
  const FLAG_ABSENT: byte := 0x00
  const MUTATION_PUT: byte := 0x01
  const MUTATION_DELETE: byte := 0x02

  // ----- integers -----

  function Pow256(n: nat): (r: nat)
    ensures r > 0
  {
    if n == 0 then 1 else 256 * Pow256(n - 1)
  }

  lemma Widths()
    ensures Pow256(4) == U32_LIMIT && Pow256(8) == U64_LIMIT && Pow256(16) == U128_LIMIT
  {
    assert Pow256(4) == 0x1_0000_0000;
    assert Pow256(8) == 0x1_0000_0000_0000_0000;
    assert Pow256(12) == 0x1_0000_0000_0000_0000_0000_0000;
  }

  /** `to_be_bytes` in `n` bytes. */
  function BigEndian(v: nat, n: nat): (r: seq<byte>)
    ensures |r| == n
  {
    if n == 0 then [] else BigEndian(v / 256, n - 1) + [v % 256]
  }

  /** `from_be_bytes`. */
  function FromBigEndian(s: seq<byte>): (v: nat)
    ensures v < Pow256(|s|)
    ensures BigEndian(v, |s|) == s
  {
    if s == [] then 0
    else
      var n := |s| - 1;
      var v := FromBigEndian(s[..n]) * 256 + s[n];
      assert v / 256 == FromBigEndian(s[..n]) && v % 256 == s[n];
      assert s == s[..n] + [s[n]];
      v
  }

  /** Two numbers that fit have the same bytes only if they are equal. */
  lemma {:induction false} BigEndianInjective(a: nat, b: nat, n: nat)
    requires a < Pow256(n) && b < Pow256(n) && BigEndian(a, n) == BigEndian(b, n)
    ensures a == b
  {
    if n > 0 {
      var x, y := BigEndian(a / 256, n - 1), BigEndian(b / 256, n - 1);
      assert x == BigEndian(a, n)[..n - 1] && y == BigEndian(b, n)[..n - 1];
      assert BigEndian(a, n)[n - 1] == a % 256 && BigEndian(b, n)[n - 1] == b % 256;
      BigEndianInjective(a / 256, b / 256, n - 1);
    }
  }

  lemma {:induction false} LessSnoc(x: seq<byte>, y: seq<byte>, r: byte, s: byte)
    requires |x| == |y|
    ensures Less(x + [r], y + [s]) <==> Less(x, y) || (x == y && r < s)
  {
    if x == [] {
      assert (x + [r])[1..] == [] && (y + [s])[1..] == [];
    } else {
      assert (x + [r])[1..] == x[1..] + [r] && (y + [s])[1..] == y[1..] + [s];
      LessSnoc(x[1..], y[1..], r, s);
      assert x == [x[0]] + x[1..] && y == [y[0]] + y[1..];
    }
  }

  /** Fixed-width big-endian bytes sort lexicographically exactly as the numbers do. */
  lemma {:induction false} BigEndianOrder(a: nat, b: nat, n: nat)
    requires a < Pow256(n) && b < Pow256(n)
    ensures Less(BigEndian(a, n), BigEndian(b, n)) <==> a < b
  {
    if n > 0 {
      var x, y := BigEndian(a / 256, n - 1), BigEndian(b / 256, n - 1);
      LessSnoc(x, y, a % 256, b % 256);
      BigEndianOrder(a / 256, b / 256, n - 1);
      if x == y { BigEndianInjective(a / 256, b / 256, n - 1); }
    }
  }

  lemma TimestampOrder(a: Timestamp, b: Timestamp)
    ensures Less(BigEndian(a, 16), BigEndian(b, 16)) <==> a < b
  {
    Widths();
    BigEndianOrder(a, b, 16);
  }

  // ----- layout -----

  /** A length-prefixed byte string. */
  function BytesLayout(v: seq<byte>): seq<byte> {
    BigEndian(|v|, 4) + v
  }

  function ValueLayout(v: Option<Value>): seq<byte> {
    match v
    case Some(b) => [FLAG_PRESENT] + BytesLayout(b)
    case None => [FLAG_ABSENT]
  }

  function CommittedLayout(v: CommittedVersion): seq<byte> {
    [CODEC_VERSION, RECORD_COMMITTED] + (BytesLayout(v.key) + (BigEndian(v.commitTs, 16) + ValueLayout(v.value)))
  }

  function MinLayout(m: Option<Timestamp>): seq<byte> {
    match m
    case Some(ts) => [FLAG_PRESENT] + BigEndian(ts, 16)
    case None => [FLAG_ABSENT]
  }

  function MutationLayout(m: Mutation): seq<byte> {
    match m
    case Put(b) => [MUTATION_PUT] + BytesLayout(b)
    case Delete => [MUTATION_DELETE]
  }

  function IntentLayout(i: Intent): seq<byte> {
    [CODEC_VERSION, RECORD_INTENT]
    + (BytesLayout(i.key)
       + (BigEndian(i.txnId, 8) + (BigEndian(i.startTs, 16) + (MinLayout(i.minCommitTs) + MutationLayout(i.mutation)))))
  }

  /** Every length fits its four-byte prefix. */
  ghost predicate CommittedFits(v: CommittedVersion) {
    |v.key| < U32_LIMIT && (v.value.Some? ==> |v.value.value| < U32_LIMIT)
  }

  ghost predicate IntentFits(i: Intent) {
    |i.key| < U32_LIMIT && (i.mutation.Put? ==> |i.mutation.bytes| < U32_LIMIT)
  }

  ghost predicate CommittedEncodes(v: CommittedVersion, buf: seq<byte>) {
    CommittedFits(v) && buf == CommittedLayout(v)
  }

  ghost predicate IntentEncodes(i: Intent, buf: seq<byte>) {
    IntentFits(i) && buf == IntentLayout(i)
  }

  // ----- reading a field determines it -----

  lemma Split(a: seq<byte>, s: seq<byte>, b: seq<byte>, t: seq<byte>)
    requires a + s == b + t && |a| == |b|
    ensures a == b && s == t
  {
    assert (a + s)[..|a|] == a && (b + t)[..|b|] == b;
    assert (a + s)[|a|..] == s && (b + t)[|b|..] == t;
  }

  lemma IntegerRead(a: nat, s: seq<byte>, b: nat, t: seq<byte>, n: nat)
    requires a < Pow256(n) && b < Pow256(n) && BigEndian(a, n) + s == BigEndian(b, n) + t
    ensures a == b && s == t
  {
    Split(BigEndian(a, n), s, BigEndian(b, n), t);
    BigEndianInjective(a, b, n);
  }

  lemma BytesRead(v: seq<byte>, s: seq<byte>, w: seq<byte>, t: seq<byte>)
    requires |v| < U32_LIMIT && |w| < U32_LIMIT && BytesLayout(v) + s == BytesLayout(w) + t
    ensures v == w && s == t
  {
    hide BigEndian, Pow256;
    Widths();
    assert BytesLayout(v) + s == BigEndian(|v|, 4) + (v + s);
    assert BytesLayout(w) + t == BigEndian(|w|, 4) + (w + t);
    IntegerRead(|v|, v + s, |w|, w + t, 4);
    Split(v, s, w, t);
  }

  lemma TagRead(a: byte, s: seq<byte>, b: byte, t: seq<byte>, u: seq<byte>, v: seq<byte>)
    requires ([a] + s) + u == ([b] + t) + v
    ensures a == b && s + u == t + v
  {
    assert ([a] + s) + u == [a] + (s + u);
    assert ([b] + t) + v == [b] + (t + v);
    Split([a], s + u, [b], t + v);
  }

  lemma ValueRead(v: Option<Value>, s: seq<byte>, w: Option<Value>, t: seq<byte>)
    requires (v.Some? ==> |v.value| < U32_LIMIT) && (w.Some? ==> |w.value| < U32_LIMIT)
    requires ValueLayout(v) + s == ValueLayout(w) + t
    ensures v == w && s == t
  {
    hide BytesLayout;
    var a := if v.Some? then BytesLayout(v.value) else [];
    var b := if w.Some? then BytesLayout(w.value) else [];
    assert [ValueLayout(v)[0]] + a == ValueLayout(v) && [ValueLayout(w)[0]] + b == ValueLayout(w);
    TagRead(ValueLayout(v)[0], a, ValueLayout(w)[0], b, s, t);
    if v.Some? {
      BytesRead(v.value, s, w.value, t);
    } else {
      assert a + s == s && b + t == t;
    }
  }

  lemma MinRead(v: Option<Timestamp>, s: seq<byte>, w: Option<Timestamp>, t: seq<byte>)
    requires MinLayout(v) + s == MinLayout(w) + t
    ensures v == w && s == t
  {
    hide BigEndian, Pow256;
    Widths();
    var a := if v.Some? then BigEndian(v.value, 16) else [];
    var b := if w.Some? then BigEndian(w.value, 16) else [];
    assert [MinLayout(v)[0]] + a == MinLayout(v) && [MinLayout(w)[0]] + b == MinLayout(w);
    TagRead(MinLayout(v)[0], a, MinLayout(w)[0], b, s, t);
    if v.Some? {
      IntegerRead(v.value, s, w.value, t, 16);
    } else {
      assert a + s == s && b + t == t;
    }
  }

  lemma MutationRead(v: Mutation, s: seq<byte>, w: Mutation, t: seq<byte>)
    requires (v.Put? ==> |v.bytes| < U32_LIMIT) && (w.Put? ==> |w.bytes| < U32_LIMIT)
    requires MutationLayout(v) + s == MutationLayout(w) + t
    ensures v == w && s == t
  {
    hide BytesLayout;
    var a := if v.Put? then BytesLayout(v.bytes) else [];
    var b := if w.Put? then BytesLayout(w.bytes) else [];
    assert [MutationLayout(v)[0]] + a == MutationLayout(v) && [MutationLayout(w)[0]] + b == MutationLayout(w);
    TagRead(MutationLayout(v)[0], a, MutationLayout(w)[0], b, s, t);
    if v.Put? {
      BytesRead(v.bytes, s, w.bytes, t);
    } else {
      assert a + s == s && b + t == t;
    }
  }

  // ----- no record is a proper prefix of another -----

  lemma CommittedPrefixFree(v: CommittedVersion, s: seq<byte>, w: CommittedVersion, t: seq<byte>)
    requires CommittedFits(v) && CommittedFits(w) && CommittedLayout(v) + s == CommittedLayout(w) + t
    ensures v == w && s == t
  {
    hide BytesLayout, BigEndian, ValueLayout;
    Widths();
    var vv, ww := ValueLayout(v.value) + s, ValueLayout(w.value) + t;
    var vt, wt := BigEndian(v.commitTs, 16) + vv, BigEndian(w.commitTs, 16) + ww;
    var head := [CODEC_VERSION, RECORD_COMMITTED];
    assert CommittedLayout(v) + s == head + (BytesLayout(v.key) + vt);
    assert CommittedLayout(w) + t == head + (BytesLayout(w.key) + wt);
    Split(head, BytesLayout(v.key) + vt, head, BytesLayout(w.key) + wt);
    BytesRead(v.key, vt, w.key, wt);
    IntegerRead(v.commitTs, vv, w.commitTs, ww, 16);
    ValueRead(v.value, s, w.value, t);
  }

  lemma IntentPrefixFree(v: Intent, s: seq<byte>, w: Intent, t: seq<byte>)
    requires IntentFits(v) && IntentFits(w) && IntentLayout(v) + s == IntentLayout(w) + t
    ensures v == w && s == t
  {
    hide BytesLayout, BigEndian, MinLayout, MutationLayout;
    Widths();
    var v4, w4 := MutationLayout(v.mutation) + s, MutationLayout(w.mutation) + t;
    var v3, w3 := MinLayout(v.minCommitTs) + v4, MinLayout(w.minCommitTs) + w4;
    var v2, w2 := BigEndian(v.startTs, 16) + v3, BigEndian(w.startTs, 16) + w3;
    var v1, w1 := BigEndian(v.txnId, 8) + v2, BigEndian(w.txnId, 8) + w2;
    var head := [CODEC_VERSION, RECORD_INTENT];
    IntentTail(v, s);
    IntentTail(w, t);
    Split(head, BytesLayout(v.key) + v1, head, BytesLayout(w.key) + w1);
    BytesRead(v.key, v1, w.key, w1);
    IntegerRead(v.txnId, v2, w.txnId, w2, 8);
    IntegerRead(v.startTs, v3, w.startTs, w3, 16);
    MinRead(v.minCommitTs, v4, w.minCommitTs, w4);
    MutationRead(v.mutation, s, w.mutation, t);
  }

  lemma IntentTail(v: Intent, s: seq<byte>)
    ensures IntentLayout(v) + s == [CODEC_VERSION, RECORD_INTENT]
              + (BytesLayout(v.key)
                 + (BigEndian(v.txnId, 8)
                    + (BigEndian(v.startTs, 16) + (MinLayout(v.minCommitTs) + (MutationLayout(v.mutation) + s)))))
  {
    hide BytesLayout, BigEndian, MinLayout, MutationLayout;
    var a, b, c := BytesLayout(v.key), BigEndian(v.txnId, 8), BigEndian(v.startTs, 16);
    var d, e := MinLayout(v.minCommitTs), MutationLayout(v.mutation);
    assert (a + (b + (c + (d + e)))) + s == a + (b + (c + (d + (e + s))));
    var head := [CODEC_VERSION, RECORD_INTENT];
    assert (head + (a + (b + (c + (d + e))))) + s == head + ((a + (b + (c + (d + e)))) + s);
  }

  /** No encoded record, of either kind, is a proper prefix of another. */
  lemma NoProperPrefix(v: CommittedVersion, w: CommittedVersion, i: Intent, j: Intent)
    requires CommittedFits(v) && CommittedFits(w) && IntentFits(i) && IntentFits(j)
    ensures CommittedLayout(v) <= CommittedLayout(w) ==> v == w
    ensures IntentLayout(i) <= IntentLayout(j) ==> i == j
    ensures !(CommittedLayout(v) <= IntentLayout(i)) && !(IntentLayout(i) <= CommittedLayout(v))
  {
    hide BytesLayout, BigEndian, ValueLayout, MinLayout, MutationLayout;
    var a, b, c, d := CommittedLayout(v), CommittedLayout(w), IntentLayout(i), IntentLayout(j);
    if a <= b {
      assert a + b[|a|..] == b + [];
      CommittedPrefixFree(v, b[|a|..], w, []);
    }
    if c <= d {
      assert c + d[|c|..] == d + [];
      IntentPrefixFree(i, d[|c|..], j, []);
    }
    assert a[1] == RECORD_COMMITTED && c[1] == RECORD_INTENT;
  }

  // ----- the bytes themselves -----

  /** The digit of `v` in base 256 that stands at index `i` of `width`, the most significant first. */
  ghost function Digit(v: nat, width: nat, i: nat): nat
    requires i < width
  {
    v / Pow256(width - 1 - i) % 256
  }

  lemma {:induction false} BigEndianDigit(v: nat, width: nat, i: nat)
    requires i < width
    ensures BigEndian(v, width)[i] == Digit(v, width, i)
  {
    if i < width - 1 {
      BigEndianDigit(v / 256, width - 1, i);
      DivisionTwice(v, Pow256(width - 2 - i));
    }
  }

  /** The number `v` in `width` big-endian bytes at position `at`. */
  ghost predicate NumberAt(buf: seq<byte>, at: nat, v: nat, width: nat) {
    && at + width <= |buf|
    && forall i :: 0 <= i < width ==> buf[at + i] == Digit(v, width, i)
  }

  /** The byte string `b` at position `at`, after its length in four bytes. */
  ghost predicate StringAt(buf: seq<byte>, at: nat, b: seq<byte>) {
    |b| < 0x1_0000_0000 && NumberAt(buf, at, |b|, 4) && at + 4 + |b| <= |buf| && buf[at + 4..at + 4 + |b|] == b
  }

  /** The last field of a committed version, at position `at`: a presence flag and the value. */
  ghost predicate ValueAt(buf: seq<byte>, at: nat, v: Option<Value>) {
    && at < |buf|
    && match v
       case Some(b) => buf[at] == 1 && StringAt(buf, at + 1, b) && |buf| == at + 5 + |b|
       case None => buf[at] == 0 && |buf| == at + 1
  }

  /** The last field of an intent, at position `at`: its kind and the value. */
  ghost predicate MutationAt(buf: seq<byte>, at: nat, m: Mutation) {
    && at < |buf|
    && match m
       case Put(b) => buf[at] == 1 && StringAt(buf, at + 1, b) && |buf| == at + 5 + |b|
       case Delete => buf[at] == 2 && |buf| == at + 1
  }

  /** The encoding of a committed version, byte by byte. */
  ghost predicate IsCommittedRecord(v: CommittedVersion, buf: seq<byte>) {
    var n := |v.key|;
    && |buf| > n + 22
    && buf[0] == 2 && buf[1] == 1
    && StringAt(buf, 2, v.key)
    && NumberAt(buf, n + 6, v.commitTs, 16)
    && ValueAt(buf, n + 22, v.value)
  }

  /** The encoding of an intent, byte by byte. */
  ghost predicate IsIntentRecord(i: Intent, buf: seq<byte>) {
    var n := |i.key|;
    && |buf| > n + 30
    && buf[0] == 2 && buf[1] == 2
    && StringAt(buf, 2, i.key)
    && NumberAt(buf, n + 6, i.txnId, 8)
    && NumberAt(buf, n + 14, i.startTs, 16)
    && match i.minCommitTs
       case Some(ts) => buf[n + 30] == 1 && NumberAt(buf, n + 31, ts, 16) && MutationAt(buf, n + 47, i.mutation)
       case None => buf[n + 30] == 0 && MutationAt(buf, n + 31, i.mutation)
  }

  lemma NumberIs(buf: seq<byte>, at: nat, v: nat, width: nat)
    ensures NumberAt(buf, at, v, width) <==> at + width <= |buf| && buf[at..at + width] == BigEndian(v, width)
  {
    hide BigEndian, Digit;
    forall i | 0 <= i < width ensures BigEndian(v, width)[i] == Digit(v, width, i) {
      BigEndianDigit(v, width, i);
    }
    if at + width <= |buf| {
      var s := buf[at..at + width];
      assert forall i :: 0 <= i < width ==> s[i] == buf[at + i];
    }
  }

  lemma StringIs(buf: seq<byte>, at: nat, b: seq<byte>)
    ensures StringAt(buf, at, b) <==>
              |b| < U32_LIMIT && at + 4 + |b| <= |buf| && buf[at..at + 4 + |b|] == BytesLayout(b)
  {
    hide BigEndian, NumberAt;
    NumberIs(buf, at, |b|, 4);
    if at + 4 + |b| <= |buf| {
      assert buf[at..at + 4 + |b|] == buf[at..at + 4] + buf[at + 4..at + 4 + |b|];
      var s, t := buf[at..at + 4 + |b|], BytesLayout(b);
      assert s == t ==> s[..4] == t[..4] && s[4..] == t[4..];
      assert t[..4] == BigEndian(|b|, 4) && t[4..] == b;
    }
  }

  /** A buffer is a front and a rest, exactly when its front is the one and its rest is the other. */
  lemma Cut(buf: seq<byte>, a: seq<byte>, rest: seq<byte>)
    ensures buf == a + rest <==> |buf| >= |a| && buf[..|a|] == a && buf[|a|..] == rest
  {
    if |buf| >= |a| { assert buf == buf[..|a|] + buf[|a|..]; }
    if buf == a + rest { assert buf[..|a|] == a && buf[|a|..] == rest; }
  }

  lemma ValueIs(buf: seq<byte>, at: nat, v: Option<Value>)
    requires at <= |buf|
    ensures ValueAt(buf, at, v) <==> (v.Some? ==> |v.value| < U32_LIMIT) && buf[at..] == ValueLayout(v)
  {
    hide BytesLayout, StringAt;
    if v.Some? {
      StringIs(buf, at + 1, v.value);
      LayoutSize(v.value);
      Tagged(buf, at, 1, BytesLayout(v.value));
    }
  }

  lemma LayoutSize(b: seq<byte>)
    ensures |BytesLayout(b)| == |b| + 4
  {
  }

  lemma Tagged(buf: seq<byte>, at: nat, tag: byte, s: seq<byte>)
    requires at <= |buf|
    ensures buf[at..] == [tag] + s <==>
              at < |buf| && buf[at] == tag && |buf| == at + 1 + |s| && buf[at + 1..at + 1 + |s|] == s
  {
    if at < |buf| {
      assert buf[at..] == [buf[at]] + buf[at + 1..];
      if |buf| == at + 1 + |s| { assert buf[at + 1..at + 1 + |s|] == buf[at + 1..]; }
      if buf[at..] == [tag] + s { assert buf[at + 1..] == buf[at..][1..] == s; }
    }
  }

  lemma MutationIs(buf: seq<byte>, at: nat, m: Mutation)
    requires at <= |buf|
    ensures MutationAt(buf, at, m) <==> (m.Put? ==> |m.bytes| < U32_LIMIT) && buf[at..] == MutationLayout(m)
  {
    hide BytesLayout, StringAt;
    if m.Put? {
      StringIs(buf, at + 1, m.bytes);
      LayoutSize(m.bytes);
      Tagged(buf, at, 1, BytesLayout(m.bytes));
    }
  }

  /** A field and what follows it, at a position. */
  lemma FieldAt(buf: seq<byte>, at: nat, field: seq<byte>, rest: seq<byte>)
    requires at <= |buf|
    ensures buf[at..] == field + rest <==>
              at + |field| <= |buf| && buf[at..at + |field|] == field && buf[at + |field|..] == rest
  {
    Cut(buf[at..], field, rest);
    if at + |field| <= |buf| {
      assert buf[at..][..|field|] == buf[at..at + |field|] && buf[at..][|field|..] == buf[at + |field|..];
    }
  }

  /** The layout is the record, byte by byte. */
  lemma CommittedRecord(v: CommittedVersion, buf: seq<byte>)
    ensures CommittedEncodes(v, buf) <==> IsCommittedRecord(v, buf)
  {
    hide BytesLayout, BigEndian, ValueLayout, StringAt, NumberAt;
    var n, tail := |v.key|, ValueLayout(v.value);
    var rest := BigEndian(v.commitTs, 16) + tail;
    LayoutSize(v.key);
    StringIs(buf, 2, v.key);
    NumberIs(buf, n + 6, v.commitTs, 16);
    Cut(buf, [2, 1], BytesLayout(v.key) + rest);
    if |buf| >= 2 { FieldAt(buf, 2, BytesLayout(v.key), rest); }
    if |buf| >= n + 6 { FieldAt(buf, n + 6, BigEndian(v.commitTs, 16), tail); }
    if |buf| >= n + 22 { ValueIs(buf, n + 22, v.value); }
  }

  lemma MinAt(buf: seq<byte>, at: nat, min: Option<Timestamp>, rest: seq<byte>)
    requires at <= |buf|
    ensures var next := if min.Some? then at + 17 else at + 1;
            buf[at..] == MinLayout(min) + rest <==>
              && next <= |buf| && buf[next..] == rest
              && match min
                 case Some(ts) => buf[at] == 1 && NumberAt(buf, at + 1, ts, 16)
                 case None => buf[at] == 0
  {
    hide BigEndian, NumberAt;
    FieldAt(buf, at, MinLayout(min), rest);
    if min.Some? {
      NumberIs(buf, at + 1, min.value, 16);
      if at + 17 <= |buf| {
        var s := buf[at..at + 17];
        assert s == [buf[at]] + buf[at + 1..at + 17];
        assert s == MinLayout(min) ==> s[1..] == MinLayout(min)[1..] == BigEndian(min.value, 16);
      }
    }
  }

  lemma FrontAt(i: Intent, buf: seq<byte>, rest: seq<byte>)
    ensures var n := |i.key|;
            n < U32_LIMIT
            && buf == [2, 2] + (BytesLayout(i.key) + (BigEndian(i.txnId, 8) + (BigEndian(i.startTs, 16) + rest)))
            <==>
            && n + 30 <= |buf| && buf[0] == 2 && buf[1] == 2 && StringAt(buf, 2, i.key)
            && NumberAt(buf, n + 6, i.txnId, 8) && NumberAt(buf, n + 14, i.startTs, 16) && buf[n + 30..] == rest
  {
    hide BytesLayout, BigEndian, StringAt, NumberAt;
    var n, start := |i.key|, BigEndian(i.startTs, 16) + rest;
    var txn := BigEndian(i.txnId, 8) + start;
    LayoutSize(i.key);
    StringIs(buf, 2, i.key);
    NumberIs(buf, n + 6, i.txnId, 8);
    NumberIs(buf, n + 14, i.startTs, 16);
    Cut(buf, [2, 2], BytesLayout(i.key) + txn);
    if |buf| >= 2 { FieldAt(buf, 2, BytesLayout(i.key), txn); }
    if |buf| >= n + 6 { FieldAt(buf, n + 6, BigEndian(i.txnId, 8), start); }
    if |buf| >= n + 14 { FieldAt(buf, n + 14, BigEndian(i.startTs, 16), rest); }
  }

  lemma IntentRecord(i: Intent, buf: seq<byte>)
    ensures IntentEncodes(i, buf) <==> IsIntentRecord(i, buf)
  {
    hide BytesLayout, BigEndian, MinLayout, MutationLayout, StringAt, NumberAt;
    var n, mutation := |i.key|, MutationLayout(i.mutation);
    var next := if i.minCommitTs.Some? then n + 47 else n + 31;
    FrontAt(i, buf, MinLayout(i.minCommitTs) + mutation);
    StringFits(buf, 2, i.key);
    if |buf| >= n + 30 { MinAt(buf, n + 30, i.minCommitTs, mutation); }
    if |buf| >= next { MutationIs(buf, next, i.mutation); }
  }

  lemma StringFits(buf: seq<byte>, at: nat, b: seq<byte>)
    ensures StringAt(buf, at, b) ==> |b| < U32_LIMIT
  {
  }

  lemma CommittedRecords(buf: seq<byte>)
    ensures forall v: CommittedVersion :: CommittedEncodes(v, buf) <==> IsCommittedRecord(v, buf)
  {
    hide CommittedEncodes, IsCommittedRecord;
    forall v: CommittedVersion ensures CommittedEncodes(v, buf) <==> IsCommittedRecord(v, buf) {
      CommittedRecord(v, buf);
    }
  }

  lemma IntentRecords(buf: seq<byte>)
    ensures forall i: Intent :: IntentEncodes(i, buf) <==> IsIntentRecord(i, buf)
  {
    hide IntentEncodes, IsIntentRecord;
    forall i: Intent ensures IntentEncodes(i, buf) <==> IsIntentRecord(i, buf) {
      IntentRecord(i, buf);
    }
  }

  // ----- encoders -----

  method EncodeBytes(buf: seq<byte>, bytes: seq<byte>) returns (r: Result<(), CodecError>, out: seq<byte>)
    ensures |bytes| < U32_LIMIT ==> r == Ok(()) && out == buf + BytesLayout(bytes)
    ensures |bytes| >= U32_LIMIT ==> r == Err(Encode) && out == buf
  {
    out := buf;
    if |bytes| >= U32_LIMIT {
      return Err(Encode), out;
    }
    out := out + BigEndian(|bytes|, 4);
    out := out + bytes;
    assert out == buf + BytesLayout(bytes);
    r := Ok(());
  }

  lemma CommittedJoins(v: CommittedVersion, front: seq<byte>, buf: seq<byte>)
    requires front == [CODEC_VERSION, RECORD_COMMITTED] + BytesLayout(v.key) + BigEndian(v.commitTs, 16)
    requires buf == front + ValueLayout(v.value)
    ensures buf == CommittedLayout(v)
  {
    hide BytesLayout, BigEndian, ValueLayout;
  }

  method EncodeCommitted(version: CommittedVersion) returns (r: Result<seq<byte>, CodecError>)
    ensures r == if CommittedFits(version) then Ok(CommittedLayout(version)) else Err(Encode)
    ensures r.Ok? ==> IsCommittedRecord(version, r.value)
    ensures r.Err? <==>
              |version.key| >= 0x1_0000_0000 || (version.value.Some? && |version.value.value| >= 0x1_0000_0000)
  {
    hide BigEndian, BytesLayout, CommittedLayout, IsCommittedRecord;
    CommittedRecords(CommittedLayout(version));
    var buf: seq<byte> := [];
    buf := buf + [CODEC_VERSION];
    buf := buf + [RECORD_COMMITTED];
    var e;
    e, buf := EncodeBytes(buf, version.key);
    if e.Err? {
      return Err(e.error);
    }
    buf := buf + BigEndian(version.commitTs, 16);
    ghost var front := buf;
    match version.value {
      case Some(v) =>
        buf := buf + [FLAG_PRESENT];
        e, buf := EncodeBytes(buf, v);
        if e.Err? {
          return Err(e.error);
        }
      case None =>
        buf := buf + [FLAG_ABSENT];
    }
    assert buf == front + ValueLayout(version.value);
    CommittedJoins(version, front, buf);
    r := Ok(buf);
  }

  lemma IntentJoins(i: Intent, front: seq<byte>, middle: seq<byte>, buf: seq<byte>)
    requires front ==
               [CODEC_VERSION, RECORD_INTENT] + BytesLayout(i.key) + BigEndian(i.txnId, 8) + BigEndian(i.startTs, 16)
    requires middle == front + MinLayout(i.minCommitTs) && buf == middle + MutationLayout(i.mutation)
    ensures buf == IntentLayout(i)
  {
    hide BytesLayout, BigEndian, MinLayout, MutationLayout;
  }

  lemma Appended(a: seq<byte>, tag: byte, s: seq<byte>)
    ensures a + [tag] + s == a + ([tag] + s)
  {
  }

  method EncodeIntent(intent: Intent) returns (r: Result<seq<byte>, CodecError>)
    ensures r == if IntentFits(intent) then Ok(IntentLayout(intent)) else Err(Encode)
    ensures r.Ok? ==> IsIntentRecord(intent, r.value)
    ensures r.Err? <==>
              |intent.key| >= 0x1_0000_0000 || (intent.mutation.Put? && |intent.mutation.bytes| >= 0x1_0000_0000)
  {
    hide BigEndian, BytesLayout, IntentLayout, IsIntentRecord;
    IntentRecords(IntentLayout(intent));
    var buf: seq<byte> := [];
    buf := buf + [CODEC_VERSION];
    buf := buf + [RECORD_INTENT];
    var e;
    e, buf := EncodeBytes(buf, intent.key);
    if e.Err? {
      return Err(e.error);
    }
    buf := buf + BigEndian(intent.txnId, 8);
    buf := buf + BigEndian(intent.startTs, 16);
    ghost var front := buf;
    assert front == [CODEC_VERSION, RECORD_INTENT] + BytesLayout(intent.key) + BigEndian(intent.txnId, 8)
                    + BigEndian(intent.startTs, 16);
    match intent.minCommitTs {
      case Some(ts) =>
        buf := buf + [FLAG_PRESENT];
        buf := buf + BigEndian(ts, 16);
        Appended(front, FLAG_PRESENT, BigEndian(ts, 16));
      case None =>
        buf := buf + [FLAG_ABSENT];
    }
    assert buf == front + MinLayout(intent.minCommitTs);
    ghost var middle := buf;
    match intent.mutation {
      case Put(v) =>
        buf := buf + [MUTATION_PUT];
        e, buf := EncodeBytes(buf, v);
        if e.Err? {
          return Err(e.error);
        }
        Appended(middle, MUTATION_PUT, BytesLayout(v));
      case Delete =>
        buf := buf + [MUTATION_DELETE];
    }
    assert buf == middle + MutationLayout(intent.mutation);
    IntentJoins(intent, front, middle, buf);
    r := Ok(buf);
  }

  // ----- decoders -----

  /** Reads a fixed-width integer at the offset. */
  method DecodeUnsigned(buf: seq<byte>, offset: nat, width: nat) returns (r: Result<nat, CodecError>, next: nat)
    requires offset <= |buf|
    ensures offset <= next <= |buf|
    ensures |buf| < offset + width ==> r == Err(Decode)
    ensures |buf| >= offset + width ==>
              r.Ok? && r.value < Pow256(width) && buf[offset..] == BigEndian(r.value, width) + buf[next..]
  {
    if |buf| < offset + width {
      return Err(Decode), offset;
    }
    var bytes := buf[offset..offset + width];
    r, next := Ok(FromBigEndian(bytes)), offset + width;
    assert buf[offset..] == bytes + buf[next..];
  }

  /** Reads a length-prefixed byte string at the offset, or finds that none starts there. */
  method DecodeBytes(buf: seq<byte>, offset: nat) returns (r: Result<seq<byte>, CodecError>, next: nat)
    requires offset <= |buf|
    ensures offset <= next <= |buf|
    ensures r.Ok? ==> |r.value| < U32_LIMIT && buf[offset..] == BytesLayout(r.value) + buf[next..]
    ensures r.Err? ==> r.error == Decode
    ensures r.Err? ==> forall v: seq<byte>, t: seq<byte> :: |v| < U32_LIMIT ==> buf[offset..] != BytesLayout(v) + t
  {
    hide BigEndian, Pow256;
    Widths();
    var len, mid := DecodeUnsigned(buf, offset, 4);
    if len.Err? {
      return Err(len.error), mid;
    }
    if |buf| < mid + len.value {
      TooShort(buf[offset..], len.value, buf[mid..]);
      return Err(Decode), mid;
    }
    var bytes := buf[mid..mid + len.value];
    next := mid + len.value;
    assert buf[mid..] == bytes + buf[next..];
    assert buf[offset..] == BytesLayout(bytes) + buf[next..];
    r := Ok(bytes);
  }

  lemma TooShort(s: seq<byte>, len: nat, rest: seq<byte>)
    requires len < U32_LIMIT && s == BigEndian(len, 4) + rest && |rest| < len
    ensures forall v: seq<byte>, t: seq<byte> :: |v| < U32_LIMIT ==> s != BytesLayout(v) + t
  {
    hide BigEndian, Pow256;
    Widths();
    forall v: seq<byte>, t: seq<byte> | |v| < U32_LIMIT ensures s != BytesLayout(v) + t {
      if s == BytesLayout(v) + t {
        assert BytesLayout(v) + t == BigEndian(|v|, 4) + (v + t);
        IntegerRead(len, rest, |v|, v + t, 4);
      }
    }
  }

  method DecodeValue(buf: seq<byte>, offset: nat) returns (r: Result<Option<Value>, CodecError>, next: nat)
    requires offset <= |buf|
    ensures offset <= next <= |buf|
    ensures r.Ok? ==>
              (r.value.Some? ==> |r.value.value| < U32_LIMIT) && buf[offset..] == ValueLayout(r.value) + buf[next..]
    ensures r.Err? ==> r.error == Decode
    ensures r.Err? ==>
              forall v: Option<Value>, t: seq<byte> :: (v.Some? ==> |v.value| < U32_LIMIT) ==>
                buf[offset..] != ValueLayout(v) + t
  {
    hide BytesLayout;
    if |buf| < offset + 1 {
      return Err(Decode), offset;
    }
    var flag := buf[offset];
    if flag == FLAG_PRESENT {
      var b;
      b, next := DecodeBytes(buf, offset + 1);
      assert forall v: Value, t: seq<byte> :: ([FLAG_PRESENT] + BytesLayout(v) + t)[1..] == BytesLayout(v) + t;
      assert buf[offset..][1..] == buf[offset + 1..];
      if b.Err? {
        return Err(b.error), next;
      }
      r := Ok(Some(b.value));
      assert buf[offset..] == [flag] + buf[offset + 1..];
      assert buf[offset..] == ValueLayout(r.value) + buf[next..];
    } else if flag == FLAG_ABSENT {
      r, next := Ok(None), offset + 1;
      assert buf[offset..] == ValueLayout(r.value) + buf[next..];
    } else {
      return Err(Decode), offset + 1;
    }
  }

  method DecodeMin(buf: seq<byte>, offset: nat) returns (r: Result<Option<Timestamp>, CodecError>, next: nat)
    requires offset <= |buf|
    ensures offset <= next <= |buf|
    ensures r.Ok? ==> buf[offset..] == MinLayout(r.value) + buf[next..]
    ensures r.Err? ==> r.error == Decode
    ensures r.Err? ==> forall v: Option<Timestamp>, t: seq<byte> :: buf[offset..] != MinLayout(v) + t
  {
    hide BigEndian;
    Widths();
    if |buf| < offset + 1 {
      return Err(Decode), offset;
    }
    var flag := buf[offset];
    if flag == FLAG_PRESENT {
      var ts;
      ts, next := DecodeUnsigned(buf, offset + 1, 16);
      if ts.Err? {
        return Err(ts.error), next;
      }
      r := Ok(Some(ts.value));
      assert buf[offset..] == [flag] + buf[offset + 1..];
      assert buf[offset..] == MinLayout(r.value) + buf[next..];
    } else if flag == FLAG_ABSENT {
      r, next := Ok(None), offset + 1;
      assert buf[offset..] == MinLayout(r.value) + buf[next..];
    } else {
      return Err(Decode), offset + 1;
    }
  }

  method DecodeMutation(buf: seq<byte>, offset: nat) returns (r: Result<Mutation, CodecError>, next: nat)
    requires offset <= |buf|
    ensures offset <= next <= |buf|
    ensures r.Ok? ==>
              (r.value.Put? ==> |r.value.bytes| < U32_LIMIT) && buf[offset..] == MutationLayout(r.value) + buf[next..]
    ensures r.Err? ==> r.error == Decode
    ensures r.Err? ==>
              forall m: Mutation, t: seq<byte> :: (m.Put? ==> |m.bytes| < U32_LIMIT) ==>
                buf[offset..] != MutationLayout(m) + t
  {
    hide BytesLayout;
    if |buf| < offset + 1 {
      return Err(Decode), offset;
    }
    var kind := buf[offset];
    if kind == MUTATION_PUT {
      var b;
      b, next := DecodeBytes(buf, offset + 1);
      assert forall v: Value, t: seq<byte> :: ([MUTATION_PUT] + BytesLayout(v) + t)[1..] == BytesLayout(v) + t;
      assert buf[offset..][1..] == buf[offset + 1..];
      if b.Err? {
        return Err(b.error), next;
      }
      r := Ok(Put(b.value));
      assert buf[offset..] == [kind] + buf[offset + 1..];
      assert buf[offset..] == MutationLayout(r.value) + buf[next..];
    } else if kind == MUTATION_DELETE {
      r, next := Ok(Delete), offset + 1;
      assert buf[offset..] == MutationLayout(r.value) + buf[next..];
    } else {
      return Err(Decode), offset + 1;
    }
  }

  /**
    Decoding inverts encoding: an accepted buffer is exactly the encoding of the result, and the
    encoding of any version is accepted with that version as the result.
   */
  method DecodeCommitted(buf: seq<byte>) returns (r: Result<CommittedVersion, CodecError>)
    ensures r.Ok? ==> CommittedEncodes(r.value, buf)
    ensures r.Err? ==> r.error == Decode
    ensures forall v: CommittedVersion :: CommittedEncodes(v, buf) ==> r == Ok(v)
    ensures r.Ok? ==> IsCommittedRecord(r.value, buf)
    ensures forall v: CommittedVersion :: IsCommittedRecord(v, buf) ==> r == Ok(v)
  {
    hide BytesLayout, BigEndian, ValueLayout, CommittedEncodes, IsCommittedRecord;
    CommittedRecords(buf);
    Widths();
    CommittedParts(buf);
    if buf == [] {
      return Err(Decode);
    }
    if buf[0] != CODEC_VERSION {
      return Err(Decode);
    }
    if |buf| < 2 {
      return Err(Decode);
    }
    if buf[1] != RECORD_COMMITTED {
      return Err(Decode);
    }
    var key, o1 := DecodeBytes(buf, 2);
    if key.Err? {
      return Err(key.error);
    }
    CommittedKey(buf, key.value, buf[o1..]);
    var ts, o2 := DecodeUnsigned(buf, o1, 16);
    if ts.Err? {
      return Err(ts.error);
    }
    CommittedTs(buf, key.value, buf[o1..], ts.value, buf[o2..]);
    var value, o3 := DecodeValue(buf, o2);
    if value.Err? {
      return Err(value.error);
    }
    CommittedValue(buf, key.value, ts.value, buf[o2..], value.value, buf[o3..]);
    if o3 != |buf| {
      return Err(Decode);
    }
    r := Ok(CommittedVersion(key.value, ts.value, value.value));
    CommittedWhole(buf, r.value, o1, o2, o3);
  }

  /** What an encoded version looks like past its two header bytes. */
  lemma CommittedParts(buf: seq<byte>)
    ensures forall v: CommittedVersion :: CommittedEncodes(v, buf) ==>
              && |buf| >= 2 && buf[0] == CODEC_VERSION && buf[1] == RECORD_COMMITTED
              && CommittedFits(v)
              && buf[2..] == BytesLayout(v.key) + (BigEndian(v.commitTs, 16) + ValueLayout(v.value))
  {
    hide BytesLayout, BigEndian, ValueLayout;
  }

  lemma CommittedKey(buf: seq<byte>, key: Key, rest: seq<byte>)
    requires |buf| >= 2 && |key| < U32_LIMIT && buf[2..] == BytesLayout(key) + rest
    ensures forall v: CommittedVersion :: CommittedEncodes(v, buf) ==>
              v.key == key && rest == BigEndian(v.commitTs, 16) + ValueLayout(v.value)
  {
    hide BytesLayout, BigEndian, ValueLayout, CommittedEncodes;
    CommittedParts(buf);
    forall v: CommittedVersion | CommittedEncodes(v, buf)
      ensures v.key == key && rest == BigEndian(v.commitTs, 16) + ValueLayout(v.value)
    {
      BytesRead(key, rest, v.key, BigEndian(v.commitTs, 16) + ValueLayout(v.value));
    }
  }

  lemma CommittedTs(buf: seq<byte>, key: Key, rest: seq<byte>, ts: nat, rest': seq<byte>)
    requires ts < Pow256(16) && rest == BigEndian(ts, 16) + rest'
    requires forall v: CommittedVersion :: CommittedEncodes(v, buf) ==>
              v.key == key && rest == BigEndian(v.commitTs, 16) + ValueLayout(v.value)
    ensures forall v: CommittedVersion :: CommittedEncodes(v, buf) ==>
              v.key == key && v.commitTs == ts && rest' == ValueLayout(v.value) + []
  {
    hide BigEndian, ValueLayout, CommittedEncodes;
    Widths();
    forall v: CommittedVersion | CommittedEncodes(v, buf)
      ensures v.commitTs == ts && rest' == ValueLayout(v.value) + []
    {
      IntegerRead(ts, rest', v.commitTs, ValueLayout(v.value), 16);
      assert ValueLayout(v.value) + [] == ValueLayout(v.value);
    }
  }

  lemma CommittedValue(buf: seq<byte>, key: Key, ts: nat, rest: seq<byte>, value: Option<Value>, rest': seq<byte>)
    requires (value.Some? ==> |value.value| < U32_LIMIT) && rest == ValueLayout(value) + rest'
    requires forall v: CommittedVersion :: CommittedEncodes(v, buf) ==>
              v.key == key && v.commitTs == ts && rest == ValueLayout(v.value) + []
    ensures forall v: CommittedVersion :: CommittedEncodes(v, buf) ==>
              v.key == key && v.commitTs == ts && v.value == value && rest' == []
  {
    hide ValueLayout, CommittedLayout;
    forall v: CommittedVersion | CommittedEncodes(v, buf) ensures v.value == value && rest' == [] {
      ValueRead(value, rest', v.value, []);
    }
  }

  lemma CommittedWhole(buf: seq<byte>, v: CommittedVersion, o1: nat, o2: nat, o3: nat)
    requires 2 <= o1 <= o2 <= o3 == |buf| && buf[0] == CODEC_VERSION && buf[1] == RECORD_COMMITTED
    requires CommittedFits(v)
    requires buf[2..] == BytesLayout(v.key) + buf[o1..]
    requires buf[o1..] == BigEndian(v.commitTs, 16) + buf[o2..]
    requires buf[o2..] == ValueLayout(v.value) + buf[o3..]
    ensures CommittedEncodes(v, buf)
  {
    hide BytesLayout, BigEndian, ValueLayout;
    assert buf[o2..] == ValueLayout(v.value);
    assert buf == [buf[0], buf[1]] + buf[2..];
  }

  method DecodeIntent(buf: seq<byte>) returns (r: Result<Intent, CodecError>)
    ensures r.Ok? ==> IntentEncodes(r.value, buf)
    ensures r.Err? ==> r.error == Decode
    ensures forall i: Intent :: IntentEncodes(i, buf) ==> r == Ok(i)
    ensures r.Ok? ==> IsIntentRecord(r.value, buf)
    ensures forall i: Intent :: IsIntentRecord(i, buf) ==> r == Ok(i)
  {
    hide BytesLayout, BigEndian, MinLayout, MutationLayout, IntentEncodes, IsIntentRecord;
    IntentRecords(buf);
    Widths();
    IntentParts(buf);
    if buf == [] {
      return Err(Decode);
    }
    if buf[0] != CODEC_VERSION {
      return Err(Decode);
    }
    if |buf| < 2 {
      return Err(Decode);
    }
    if buf[1] != RECORD_INTENT {
      return Err(Decode);
    }
    var key, o1 := DecodeBytes(buf, 2);
    if key.Err? {
      return Err(key.error);
    }
    IntentKey(buf, key.value, buf[o1..]);
    var txnId, o2 := DecodeUnsigned(buf, o1, 8);
    if txnId.Err? {
      return Err(txnId.error);
    }
    IntentTxn(buf, key.value, buf[o1..], txnId.value, buf[o2..]);
    var startTs, o3 := DecodeUnsigned(buf, o2, 16);
    if startTs.Err? {
      return Err(startTs.error);
    }
    IntentStart(buf, key.value, txnId.value, buf[o2..], startTs.value, buf[o3..]);
    var min, o4 := DecodeMin(buf, o3);
    if min.Err? {
      return Err(min.error);
    }
    IntentMin(buf, key.value, txnId.value, startTs.value, buf[o3..], min.value, buf[o4..]);
    var mutation, o5 := DecodeMutation(buf, o4);
    if mutation.Err? {
      return Err(mutation.error);
    }
    IntentMutation(buf, key.value, txnId.value, startTs.value, min.value, buf[o4..], mutation.value, buf[o5..]);
    if o5 != |buf| {
      return Err(Decode);
    }
    r := Ok(Intent(key.value, txnId.value, startTs.value, mutation.value, min.value));
    IntentWhole(buf, r.value, o1, o2, o3, o4, o5);
  }

  function AfterKey(i: Intent): seq<byte> { BigEndian(i.txnId, 8) + AfterTxn(i) }

  function AfterTxn(i: Intent): seq<byte> { BigEndian(i.startTs, 16) + AfterStart(i) }

  function AfterStart(i: Intent): seq<byte> { MinLayout(i.minCommitTs) + AfterMin(i) }

  function AfterMin(i: Intent): seq<byte> { MutationLayout(i.mutation) + [] }

  lemma IntentParts(buf: seq<byte>)
    ensures forall i: Intent :: IntentEncodes(i, buf) ==>
              && |buf| >= 2 && buf[0] == CODEC_VERSION && buf[1] == RECORD_INTENT
              && IntentFits(i)
              && buf[2..] == BytesLayout(i.key) + AfterKey(i)
  {
    hide BytesLayout, BigEndian, MinLayout, MutationLayout;
    forall i: Intent | IntentEncodes(i, buf) ensures buf[2..] == BytesLayout(i.key) + AfterKey(i) {
      assert AfterMin(i) == MutationLayout(i.mutation);
    }
  }

  lemma IntentKey(buf: seq<byte>, key: Key, rest: seq<byte>)
    requires |buf| >= 2 && |key| < U32_LIMIT && buf[2..] == BytesLayout(key) + rest
    ensures forall i: Intent :: IntentEncodes(i, buf) ==> i.key == key && rest == AfterKey(i)
  {
    hide BytesLayout, AfterKey, IntentEncodes;
    IntentParts(buf);
    forall i: Intent | IntentEncodes(i, buf) ensures i.key == key && rest == AfterKey(i) {
      BytesRead(key, rest, i.key, AfterKey(i));
    }
  }

  lemma IntentTxn(buf: seq<byte>, key: Key, rest: seq<byte>, txnId: nat, rest': seq<byte>)
    requires txnId < Pow256(8) && rest == BigEndian(txnId, 8) + rest'
    requires forall i: Intent :: IntentEncodes(i, buf) ==> i.key == key && rest == AfterKey(i)
    ensures forall i: Intent :: IntentEncodes(i, buf) ==> i.key == key && i.txnId == txnId && rest' == AfterTxn(i)
  {
    hide BigEndian, AfterTxn, IntentEncodes;
    Widths();
    forall i: Intent | IntentEncodes(i, buf) ensures i.txnId == txnId && rest' == AfterTxn(i) {
      IntegerRead(txnId, rest', i.txnId, AfterTxn(i), 8);
    }
  }

  lemma IntentStart(buf: seq<byte>, key: Key, txnId: nat, rest: seq<byte>, startTs: nat, rest': seq<byte>)
    requires startTs < Pow256(16) && rest == BigEndian(startTs, 16) + rest'
    requires forall i: Intent :: IntentEncodes(i, buf) ==> i.key == key && i.txnId == txnId && rest == AfterTxn(i)
    ensures forall i: Intent :: IntentEncodes(i, buf) ==>
              i.key == key && i.txnId == txnId && i.startTs == startTs && rest' == AfterStart(i)
  {
    hide BigEndian, AfterStart, IntentEncodes;
    Widths();
    forall i: Intent | IntentEncodes(i, buf) ensures i.startTs == startTs && rest' == AfterStart(i) {
      IntegerRead(startTs, rest', i.startTs, AfterStart(i), 16);
    }
  }

  lemma IntentMin(buf: seq<byte>, key: Key, txnId: nat, startTs: nat, rest: seq<byte>, min: Option<Timestamp>,
                  rest': seq<byte>)
    requires rest == MinLayout(min) + rest'
    requires forall i: Intent :: IntentEncodes(i, buf) ==>
              i.key == key && i.txnId == txnId && i.startTs == startTs && rest == AfterStart(i)
    ensures forall i: Intent :: IntentEncodes(i, buf) ==>
              i.key == key && i.txnId == txnId && i.startTs == startTs && i.minCommitTs == min && rest' == AfterMin(i)
  {
    hide MinLayout, AfterMin, IntentEncodes;
    forall i: Intent | IntentEncodes(i, buf) ensures i.minCommitTs == min && rest' == AfterMin(i) {
      MinRead(min, rest', i.minCommitTs, AfterMin(i));
    }
  }

  lemma IntentMutation(buf: seq<byte>, key: Key, txnId: nat, startTs: nat, min: Option<Timestamp>, rest: seq<byte>,
                       mutation: Mutation, rest': seq<byte>)
    requires (mutation.Put? ==> |mutation.bytes| < U32_LIMIT) && rest == MutationLayout(mutation) + rest'
    requires forall i: Intent :: IntentEncodes(i, buf) ==>
               i.key == key && i.txnId == txnId && i.startTs == startTs && i.minCommitTs == min && rest == AfterMin(i)
    ensures forall i: Intent :: IntentEncodes(i, buf) ==>
              && i.key == key && i.txnId == txnId && i.startTs == startTs
              && i.minCommitTs == min && i.mutation == mutation && rest' == []
  {
    hide MutationLayout, IntentLayout;
    forall i: Intent | IntentEncodes(i, buf) ensures i.mutation == mutation && rest' == [] {
      MutationRead(mutation, rest', i.mutation, []);
    }
  }

  lemma IntentWhole(buf: seq<byte>, i: Intent, o1: nat, o2: nat, o3: nat, o4: nat, o5: nat)
    requires 2 <= o1 <= o2 <= o3 <= o4 <= o5 == |buf| && buf[0] == CODEC_VERSION && buf[1] == RECORD_INTENT
    requires IntentFits(i)
    requires buf[2..] == BytesLayout(i.key) + buf[o1..]
    requires buf[o1..] == BigEndian(i.txnId, 8) + buf[o2..]
    requires buf[o2..] == BigEndian(i.startTs, 16) + buf[o3..]
    requires buf[o3..] == MinLayout(i.minCommitTs) + buf[o4..]
    requires buf[o4..] == MutationLayout(i.mutation) + buf[o5..]
    ensures IntentEncodes(i, buf)
  {
    hide BytesLayout, BigEndian, MinLayout, MutationLayout;
    assert buf[o4..] == MutationLayout(i.mutation);
    assert buf == [buf[0], buf[1]] + buf[2..];
  }
}
