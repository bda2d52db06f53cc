/** Canonical byte encodings of sealed transactions (model/chain.go). */
module Canonical {
  import opened Basics

  type Byte = b: int | 0 <= b < 256
  type Bytes = seq<Byte>

  /** A UTC instant as its RFC 3339 text, which is never empty. */
  type Stamp = b: Bytes | |b| > 0 witness [0]

  /** The sealed fields of a transaction, exactly as read from the database. */
  datatype ChainRow = ChainRow(
    id: Bytes, transactionId: Bytes, source: Bytes, destination: Bytes, amount: Bytes, preciseAmount: Bytes,
    precision: Bytes, rate: Bytes, currency: Bytes, status: Bytes, reference: Bytes, parent: Bytes,
    effectiveDate: Option<Stamp>, createdAt: Stamp,
    overdraftLimit: Bytes, queueAction: Bytes, executionControls: Bytes, scheduledFor: Option<Stamp>,
    historicalRate: Bytes)

  /** The longest slice a Go process can hold, plus one. */
  const SLICE_LIMIT := 0x8000_0000_0000_0000
  const DOMAIN_TEXT := "ledgerforge.transaction-chain"

  function Ascii(s: string): (b: Bytes)
    ensures |b| == |s|
  {
    seq(|s|, i requires 0 <= i < |s| => s[i] as int % 256)
  }

  function StampText(t: Option<Stamp>): Bytes
  {
    if t.Some? then t.value else []
  }

  // ----- length-delimited fields

  function BigEndian(n: nat, width: nat): (b: Bytes)
    ensures |b| == width
  {
    if width == 0 then [] else BigEndian(n / 256, width - 1) + [n % 256]
  }

  function Value(b: Bytes): nat
  {
    if b == [] then 0 else 256 * Value(b[..|b| - 1]) + b[|b| - 1]
  }

  function Limit(width: nat): nat
  {
    if width == 0 then 1 else 256 * Limit(width - 1)
  }

  lemma {:induction false} BigEndianValue(n: nat, width: nat)
    requires n < Limit(width)
    ensures Value(BigEndian(n, width)) == n
  {
    if width > 0 {
      BigEndianValue(n / 256, width - 1);
      assert BigEndian(n, width)[..width - 1] == BigEndian(n / 256, width - 1);
    }
  }

  /** A field and its length as an unsigned 64-bit big-endian number. */
  function Frame(field: Bytes): Bytes
  {
    BigEndian(|field|, 8) + field
  }

  function Encode(fields: seq<Bytes>): Bytes
  {
    if fields == [] then [] else Frame(fields[0]) + Encode(fields[1..])
  }

  /** The buffer loop: one length and one field at a time. */
  method WriteFields(fields: seq<Bytes>) returns (buffer: Bytes)
    ensures buffer == Encode(fields)
  {
    buffer := [];
    for i := 0 to |fields|
      invariant buffer + Encode(fields[i..]) == Encode(fields)
    {
      assert fields[i..][1..] == fields[i + 1..];
      buffer := buffer + BigEndian(|fields[i]|, 8);
      buffer := buffer + fields[i];
    }
  }

  lemma SliceLengthFits(n: nat)
    requires n < SLICE_LIMIT
    ensures n < Limit(8)
  {
    assert Limit(8) == 256 * 256 * 256 * 256 * 256 * 256 * 256 * 256;
  }

  /** A frame tells where it ends, so what follows it is determined too. */
  lemma FrameSplits(f: Bytes, x: Bytes, g: Bytes, y: Bytes)
    requires |f| < SLICE_LIMIT && |g| < SLICE_LIMIT
    requires Frame(f) + x == Frame(g) + y
    ensures f == g && x == y
  {
    var a, b := Frame(f) + x, Frame(g) + y;
    SliceLengthFits(|f|);
    SliceLengthFits(|g|);
    BigEndianValue(|f|, 8);
    BigEndianValue(|g|, 8);
    assert a[..8] == BigEndian(|f|, 8) && b[..8] == BigEndian(|g|, 8);
    assert a[8..][..|f|] == f && b[8..][..|g|] == g;
    assert a[8..][|f|..] == x && b[8..][|g|..] == y;
  }

  ghost predicate Short(fields: seq<Bytes>)
  {
    forall f | f in fields :: |f| < SLICE_LIMIT
  }

  /** The encoding determines the fields, and even how many there are. */
  lemma {:induction false} EncodeInjective(a: seq<Bytes>, b: seq<Bytes>)
    requires Short(a) && Short(b) && Encode(a) == Encode(b)
    ensures a == b
    decreases |a|
  {
    if a != [] && b != [] {
      FrameSplits(a[0], Encode(a[1..]), b[0], Encode(b[1..]));
      EncodeInjective(a[1..], b[1..]);
      assert a == [a[0]] + a[1..] && b == [b[0]] + b[1..];
    }
  }

  lemma {:induction false} FieldsAreShort(fields: seq<Bytes>)
    requires |Encode(fields)| < SLICE_LIMIT
    ensures Short(fields)
    decreases |fields|
  {
    if fields != [] {
      FieldsAreShort(fields[1..]);
      assert fields == [fields[0]] + fields[1..];
    }
  }

  // ----- the three versions

  function V2Fields(prev: Bytes, r: ChainRow): seq<Bytes>
  {
    [Ascii(DOMAIN_TEXT), Ascii("2"), prev,
     r.id, r.transactionId, r.source, r.destination, r.amount, r.preciseAmount,
     r.precision, r.rate, r.currency, r.status, r.reference, r.parent,
     StampText(r.effectiveDate), r.createdAt]
  }

  function V2(prev: Bytes, r: ChainRow): Bytes
  {
    Encode(V2Fields(prev, r))
  }

  function V3Fields(prev: Bytes, r: ChainRow): seq<Bytes>
  {
    [Ascii(DOMAIN_TEXT), Ascii("3"), V2(prev, r), r.overdraftLimit, r.queueAction,
     r.executionControls, StampText(r.scheduledFor), r.historicalRate]
  }

  function V3(prev: Bytes, r: ChainRow): Bytes
  {
    Encode(V3Fields(prev, r))
  }

  method CanonicalChainV2(prev: Bytes, r: ChainRow) returns (b: Bytes)
    ensures b == V2(prev, r)
  {
    var effective: Bytes := [];
    if r.effectiveDate.Some? {
      effective := r.effectiveDate.value;
    }
    b := WriteFields([Ascii(DOMAIN_TEXT), Ascii("2"), prev,
                      r.id, r.transactionId, r.source, r.destination, r.amount, r.preciseAmount,
                      r.precision, r.rate, r.currency, r.status, r.reference, r.parent,
                      effective, r.createdAt]);
  }

  method CanonicalChainV3(prev: Bytes, r: ChainRow) returns (b: Bytes)
    ensures b == V3(prev, r)
  {
    var scheduled: Bytes := [];
    if r.scheduledFor.Some? {
      scheduled := r.scheduledFor.value;
    }
    var inner := CanonicalChainV2(prev, r);
    b := WriteFields([Ascii(DOMAIN_TEXT), Ascii("3"), inner, r.overdraftLimit, r.queueAction,
                      r.executionControls, scheduled, r.historicalRate]);
  }

  const PIPE: Byte := 124

  function Join(fields: seq<Bytes>): Bytes
  {
    if fields == [] then [] else if |fields| == 1 then fields[0]
    else fields[0] + [PIPE] + Join(fields[1..])
  }

  function V1Fields(prev: Bytes, r: ChainRow): seq<Bytes>
  {
    [prev, r.transactionId, r.source, r.destination, r.amount, r.preciseAmount, r.currency,
     r.status, r.reference, r.createdAt]
  }

  function V1(prev: Bytes, r: ChainRow): Bytes
  {
    Join(V1Fields(prev, r))
  }

  // ----- injectivity

  /** The fields that version 2 seals. */
  predicate SameV2(r: ChainRow, s: ChainRow)
  {
    s == r.(overdraftLimit := s.overdraftLimit, queueAction := s.queueAction,
            executionControls := s.executionControls, scheduledFor := s.scheduledFor, historicalRate := s.historicalRate)
  }

  lemma SameFields(a: seq<Bytes>, b: seq<Bytes>)
    requires |Encode(a)| < SLICE_LIMIT && Encode(a) == Encode(b)
    ensures a == b
  {
    FieldsAreShort(a);
    FieldsAreShort(b);
    EncodeInjective(a, b);
  }

  lemma SameStamps(a: Option<Stamp>, b: Option<Stamp>)
    requires StampText(a) == StampText(b)
    ensures a == b
  {
  }

  /** Version 2 determines the previous hash and every field it seals. */
  lemma V2Injective(p: Bytes, r: ChainRow, q: Bytes, s: ChainRow)
    requires |V2(p, r)| < SLICE_LIMIT && V2(p, r) == V2(q, s)
    ensures p == q && SameV2(r, s)
  {
    var a, b := V2Fields(p, r), V2Fields(q, s);
    SameFields(a, b);
    assert a[2] == b[2] && a[3] == b[3] && a[4] == b[4] && a[5] == b[5] && a[6] == b[6] && a[7] == b[7] && a[8] == b[8];
    assert a[9] == b[9] && a[10] == b[10] && a[11] == b[11] && a[12] == b[12] && a[13] == b[13] && a[14] == b[14];
    assert a[15] == b[15] && a[16] == b[16];
    SameStamps(r.effectiveDate, s.effectiveDate);
  }

  /** Version 3 determines the previous hash and the whole row. */
  lemma V3Injective(p: Bytes, r: ChainRow, q: Bytes, s: ChainRow)
    requires |V3(p, r)| < SLICE_LIMIT && V3(p, r) == V3(q, s)
    ensures p == q && r == s
  {
    var a, b := V3Fields(p, r), V3Fields(q, s);
    SameFields(a, b);
    assert a[2] == b[2] && a[3] == b[3] && a[4] == b[4] && a[5] == b[5] && a[6] == b[6] && a[7] == b[7];
    FieldsAreShort(a);
    assert V2(p, r) in a;
    V2Injective(p, r, q, s);
    SameStamps(r.scheduledFor, s.scheduledFor);
  }

  /** No version 2 encoding is a version 3 encoding. */
  lemma V2IsNotV3(p: Bytes, r: ChainRow, q: Bytes, s: ChainRow)
    requires |V2(p, r)| < SLICE_LIMIT
    ensures V2(p, r) != V3(q, s)
  {
    assert |V2Fields(p, r)| != |V3Fields(q, s)|;
    if V2(p, r) == V3(q, s) {
      SameFields(V2Fields(p, r), V3Fields(q, s));
    }
  }

  /** The first byte of versions 2 and 3 is the high byte of the domain's length. */
  lemma StartsWithZero(fields: seq<Bytes>)
    requires fields != [] && |fields[0]| == |DOMAIN_TEXT|
    ensures Encode(fields) != [] && Encode(fields)[0] == 0
  {
    assert BigEndian(29, 8)[0] == 0;
  }

  /** A version 1 encoding whose previous hash does not start with a zero byte, such as the genesis
      value or any hexadecimal hash, is neither a version 2 nor a version 3 encoding. */
  lemma V1IsNotV2OrV3(p: Bytes, r: ChainRow, q: Bytes, s: ChainRow)
    requires p != [] ==> p[0] != 0
    ensures V1(p, r) != V2(q, s) && V1(p, r) != V3(q, s)
  {
    StartsWithZero(V2Fields(q, s));
    StartsWithZero(V3Fields(q, s));
    assert V1(p, r)[0] == if p == [] then PIPE else p[0];
  }

  // ----- version 1 is ambiguous

  ghost predicate PipeFree(fields: seq<Bytes>)
  {
    forall f | f in fields :: PIPE !in f
  }

  /** Joined text determines its parts when no part contains the separator. */
  lemma {:induction false} JoinInjective(a: seq<Bytes>, b: seq<Bytes>)
    requires |a| == |b| && PipeFree(a) && PipeFree(b) && Join(a) == Join(b)
    ensures a == b
    decreases |a|
  {
    if |a| == 1 {
      assert a == [a[0]] && b == [b[0]];
    } else if |a| > 1 {
      FirstPart(a[0], Join(a[1..]), b[0], Join(b[1..]));
      JoinInjective(a[1..], b[1..]);
      assert a == [a[0]] + a[1..] && b == [b[0]] + b[1..];
    }
  }

  lemma FirstPart(f: Bytes, x: Bytes, g: Bytes, y: Bytes)
    requires PIPE !in f && PIPE !in g && f + [PIPE] + x == g + [PIPE] + y
    ensures f == g && x == y
  {
    var a, b := f + [PIPE] + x, g + [PIPE] + y;
    assert forall i | 0 <= i < |f| :: a[i] == f[i];
    assert forall i | 0 <= i < |g| :: b[i] == g[i];
    assert a[|f|] == PIPE && b[|g|] == PIPE;
    assert a[..|f|] == f && b[..|g|] == g;
    assert a[|f| + 1..] == x && b[|g| + 1..] == y;
  }

  // ----- exactly when version 1 determines a row

  /** Joining adds one separator between fields, so counting them tells whether a field has one. */
  lemma {:induction false} SeparatorsInJoin(fields: seq<Bytes>)
    requires fields != []
    ensures multiset(Join(fields))[PIPE] >= |fields| - 1
    ensures multiset(Join(fields))[PIPE] == |fields| - 1 <==> PipeFree(fields)
    decreases |fields|
  {
    var first := fields[0];
    assert PIPE in first <==> multiset(first)[PIPE] > 0;
    if |fields| == 1 {
      assert fields == [first];
    } else {
      var rest := fields[1..];
      SeparatorsInJoin(rest);
      assert Join(fields) == first + [PIPE] + Join(rest);
      assert fields == [first] + rest;
    }
  }

  lemma {:induction false} SameLengthJoin(fields: seq<Bytes>, others: seq<Bytes>)
    requires fields != [] && |fields| == |others| && PipeFree(fields) && Join(fields) == Join(others)
    ensures fields == others
  {
    SeparatorsInJoin(fields);
    SeparatorsInJoin(others);
    JoinInjective(fields, others);
  }

  /** Only the bytes of two neighbouring fields together matter. */
  lemma {:induction false} SameSeam(f: seq<Bytes>, g: seq<Bytes>, j: nat)
    requires |f| == |g| && j + 1 < |f| && f[..j] == g[..j] && f[j + 2..] == g[j + 2..]
    requires f[j] + [PIPE] + f[j + 1] == g[j] + [PIPE] + g[j + 1]
    ensures Join(f) == Join(g)
    decreases j
  {
    if j > 0 {
      assert f[0] == f[..j][0] == g[..j][0] == g[0];
      assert f[1..][..j - 1] == f[..j][1..] == g[..j][1..] == g[1..][..j - 1];
      assert f[1..][j + 1..] == f[j + 2..] && g[1..][j + 1..] == g[j + 2..];
      SameSeam(f[1..], g[1..], j - 1);
    } else if |f| == 2 {
      assert f[1..] == [f[1]] && g[1..] == [g[1]];
    } else {
      assert f[1..][1..] == f[2..] && g[1..][1..] == g[2..];
      var rest := Join(f[2..]);
      assert Join(f) == (f[0] + [PIPE] + f[1]) + [PIPE] + rest;
      assert Join(g) == (g[0] + [PIPE] + g[1]) + [PIPE] + rest;
    }
  }

  /** The row with the given version 1 fields; fields that version 1 does not seal are kept. */
  function WithFields(r: ChainRow, f: seq<Bytes>): ChainRow
    requires |f| == 10 && f[9] != []
  {
    r.(transactionId := f[1], source := f[2], destination := f[3], amount := f[4], preciseAmount := f[5],
       currency := f[6], status := f[7], reference := f[8], createdAt := f[9])
  }

  lemma FieldsOfWith(r: ChainRow, f: seq<Bytes>)
    requires |f| == 10 && f[9] != []
    ensures V1Fields(f[0], WithFields(r, f)) == f
  {
  }

  lemma SplitAtSeparator(x: Bytes) returns (a: Bytes, b: Bytes)
    requires PIPE in x
    ensures x == a + [PIPE] + b
  {
    var i :| 0 <= i < |x| && x[i] == PIPE;
    a, b := x[..i], x[i + 1..];
  }

  /** A separator in any field but the time moves to a neighbour without changing the encoding; the
      time stays as it was. */
  lemma V1Ambiguous(p: Bytes, r: ChainRow) returns (q: Bytes, s: ChainRow)
    requires !PipeFree(V1Fields(p, r)) && PIPE !in r.createdAt
    ensures V1(q, s) == V1(p, r) && V1Fields(q, s) != V1Fields(p, r) && s.createdAt == r.createdAt
  {
    var f := V1Fields(p, r);
    hide Join;
    var i :| 0 <= i < |f| && PIPE in f[i];
    var a, b := SplitAtSeparator(f[i]);
    var j := if i == 0 then 0 else i - 1;
    var g := if i == 0 then f[0 := a][1 := b + [PIPE] + f[1]] else f[i - 1 := f[i - 1] + [PIPE] + a][i := b];
    if i == 0 {
      assert f[0] + [PIPE] + f[1] == g[0] + [PIPE] + g[1];
    } else {
      assert f[j] + [PIPE] + f[j + 1] == g[j] + [PIPE] + g[j + 1];
    }
    SameSeam(f, g, j);
    q, s := g[0], WithFields(r, g);
    FieldsOfWith(r, g);
    assert |g[i]| < |f[i]|;
  }

  /** Version 1 determines the fields of a row, against every other row, if and only if none of them
      contains the separator; a time never does. */
  lemma V1DeterminesIff(p: Bytes, r: ChainRow)
    requires PIPE !in r.createdAt
    ensures (forall q, s | V1(q, s) == V1(p, r) :: V1Fields(q, s) == V1Fields(p, r)) <==> PipeFree(V1Fields(p, r))
  {
    hide Join, V1Fields;
    if PipeFree(V1Fields(p, r)) {
      forall q, s | V1(q, s) == V1(p, r) ensures V1Fields(q, s) == V1Fields(p, r) {
        TenFields(p, r);
        TenFields(q, s);
        SameLengthJoin(V1Fields(p, r), V1Fields(q, s));
      }
    } else {
      var q, s := V1Ambiguous(p, r);
    }
  }

  lemma TenFields(p: Bytes, r: ChainRow)
    ensures |V1Fields(p, r)| == 10
  {
  }
}
