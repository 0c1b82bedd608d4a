/**
 Self-delimiting fields, as the hash preimages of the repository are built from.  Two
 encodings are compared field by field: as long as the fields read so far are equal, the
 next ones must be of the same kind.
 */
module Fields {
  import opened Bytes

  datatype Field =
    | Tag(value: byte)
    | Short(bytes: ByteString)   // two-byte big-endian length, then the bytes
    | Long(bytes: ByteString)    // four-byte big-endian length, then the bytes
    | U32(number: nat)
    | U64(number: nat)
    | Fixed(digest: Digest)
  {
    predicate Valid() {
      match this
      case Tag(_) => true
      case Short(b) => |b| <= MAX_U16
      case Long(b) => |b| <= MAX_U32
      case U32(n) => n <= MAX_U32
      case U64(n) => n <= MAX_U64
      case Fixed(_) => true
    }

    function Encode(): ByteString {
      match this
      case Tag(v) => [v]
      case Short(b) => BigEndian(|b|, 2) + b
      case Long(b) => BigEndian(|b|, 4) + b
      case U32(n) => BigEndian(n, 4)
      case U64(n) => BigEndian(n, 8)
      case Fixed(d) => d
    }

    function Kind(): nat {
      match this
      case Tag(_) => 0
      case Short(_) => 1
      case Long(_) => 2
      case U32(_) => 3
      case U64(_) => 4
      case Fixed(_) => 5
    }
  }

  function EncodeAll(fields: seq<Field>): ByteString {
    if fields == [] then [] else fields[0].Encode() + EncodeAll(fields[1..])
  }

  lemma {:induction false} EncodeAllJoins(f: seq<Field>, g: seq<Field>)
    ensures EncodeAll(f + g) == EncodeAll(f) + EncodeAll(g)
  {
    if f == [] {
      assert f + g == g;
    } else {
      assert (f + g)[1..] == f[1..] + g;
      EncodeAllJoins(f[1..], g);
    }
  }

  lemma OneField(f: Field)
    ensures EncodeAll([f]) == f.Encode()
  {
    assert [f][1..] == [] && f.Encode() + [] == f.Encode();
  }

  lemma TwoFields(f: Field, g: Field)
    ensures EncodeAll([f, g]) == f.Encode() + g.Encode()
  {
    OneField(g);
    assert [f, g][1..] == [g];
  }

  lemma ThreeFields(f: Field, g: Field, h: Field)
    ensures EncodeAll([f, g, h]) == f.Encode() + g.Encode() + h.Encode()
  {
    TwoFields(g, h);
    assert [f, g, h][1..] == [g, h];
  }

  lemma FourFields(f: Field, g: Field, h: Field, i: Field)
    ensures EncodeAll([f, g, h, i]) == f.Encode() + g.Encode() + h.Encode() + i.Encode()
  {
    assert [f] + [g, h, i] == [f, g, h, i];
    EncodeAllJoins([f], [g, h, i]);
    OneField(f);
    ThreeFields(g, h, i);
    hide EncodeAll;
    JoinThree(f.Encode(), g.Encode(), h.Encode(), i.Encode());
  }

  lemma JoinThree(f: ByteString, g: ByteString, h: ByteString, i: ByteString)
    ensures f + (g + h + i) == f + g + h + i
  {}

  /** The bytes of each kind of field, one by one. */
  function FieldBytes(f: Field): ByteString {
    match f
    case Tag(v) => [v]
    case Short(b) => TwoBytes(|b|) + b
    case Long(b) => FourBytes(|b|) + b
    case U32(n) => FourBytes(n)
    case U64(n) => EightBytes(n)
    case Fixed(d) => d
  }

  lemma FieldIs(f: Field)
    ensures f.Encode() == FieldBytes(f)
  {
    match f
    case Short(b) => BigEndianIs(|b|);
    case Long(b) => BigEndianIs(|b|);
    case U32(n) => BigEndianIs(n);
    case U64(n) => BigEndianIs(n);
    case _ =>
  }

  predicate AllValid(fields: seq<Field>) {
    forall f :: f in fields ==> f.Valid()
  }

  lemma SameLengthPrefix(a: ByteString, b: ByteString, w: nat, x: ByteString, y: ByteString)
    requires |a| < Capacity(w) && |b| < Capacity(w)
    requires BigEndian(|a|, w) + a + x == BigEndian(|b|, w) + b + y
    ensures a == b && x == y
  {
    Assoc(BigEndian(|a|, w), a, x);
    Assoc(BigEndian(|b|, w), b, y);
    SplitAt(BigEndian(|a|, w), BigEndian(|b|, w), a + x, b + y);
    BigEndianRoundTrip(|a|, w);
    BigEndianRoundTrip(|b|, w);
    SplitAt(a, b, x, y);
  }

  lemma SameInteger(m: nat, n: nat, w: nat, x: ByteString, y: ByteString)
    requires m < Capacity(w) && n < Capacity(w)
    requires BigEndian(m, w) + x == BigEndian(n, w) + y
    ensures m == n && x == y
  {
    SplitAt(BigEndian(m, w), BigEndian(n, w), x, y);
    BigEndianRoundTrip(m, w);
    BigEndianRoundTrip(n, w);
  }

  /** A field ends where it says it ends. */
  lemma FieldSplits(f: Field, g: Field, x: ByteString, y: ByteString)
    requires f.Valid() && g.Valid() && f.Kind() == g.Kind()
    requires f.Encode() + x == g.Encode() + y
    ensures f == g && x == y
  {
    CapacityValues();
    match f
    case Tag(_) => SplitAt(f.Encode(), g.Encode(), x, y);
    case Short(b) => SameLengthPrefix(b, g.bytes, 2, x, y);
    case Long(b) => SameLengthPrefix(b, g.bytes, 4, x, y);
    case U32(n) => SameInteger(n, g.number, 4, x, y);
    case U64(n) => SameInteger(n, g.number, 8, x, y);
    case Fixed(d) => SplitAt(d, g.digest, x, y);
  }

  /** As long as the fields agree, the next ones are of the same kind. */
  predicate Aligned(f: seq<Field>, g: seq<Field>) {
    if f == [] || g == [] then f == g
    else f[0].Kind() == g[0].Kind() && (f[0] == g[0] ==> Aligned(f[1..], g[1..]))
  }

  /** Aligned field lists with the same bytes, whatever follows them, are the same list. */
  lemma {:induction false} EncodingInjective(f: seq<Field>, g: seq<Field>, x: ByteString, y: ByteString)
    requires AllValid(f) && AllValid(g) && Aligned(f, g)
    requires EncodeAll(f) + x == EncodeAll(g) + y
    ensures f == g && x == y
  {
    if f == [] {
      assert EncodeAll(f) + x == x && EncodeAll(g) + y == y;
    } else {
      var u, v := EncodeAll(f[1..]) + x, EncodeAll(g[1..]) + y;
      assert f[0] in f && g[0] in g;
      assert EncodeAll(f) + x == f[0].Encode() + u && EncodeAll(g) + y == g[0].Encode() + v;
      FieldSplits(f[0], g[0], u, v);
      EncodingInjective(f[1..], g[1..], x, y);
      assert f == [f[0]] + f[1..] && g == [g[0]] + g[1..];
    }
  }

  /** Lists that begin alike are aligned when their remainders are. */
  lemma {:induction false} AlignedAfter(f: seq<Field>, g: seq<Field>, f': seq<Field>, g': seq<Field>)
    requires |f| == |g| && forall i :: 0 <= i < |f| ==> f[i].Kind() == g[i].Kind()
    requires f == g ==> Aligned(f', g')
    ensures Aligned(f + f', g + g')
  {
    if f == [] {
      assert f + f' == f' && g + g' == g';
    } else {
      assert f == [f[0]] + f[1..] && g == [g[0]] + g[1..];
      assert (f + f')[1..] == f[1..] + f' && (g + g')[1..] == g[1..] + g';
      if f[0] == g[0] {
        AlignedAfter(f[1..], g[1..], f', g');
      }
    }
  }
}
