/** The fixed-width integer codecs: the unqualified `u8` ... `i64` (big-endian),
    and the `Be*`, `Le*` and `Ne*` wrapper newtypes, one per byte order. */
module Primitives {
  import opened DeclBase

  /** The fixed-width integer types that implement `Declarative`. */
  datatype Primitive = U8 | I8 | U16 | I16 | U32 | I32 | U64 | I64

  datatype Endian = BigEndian | LittleEndian

  /** `StaticEncodingSize::SIZE` of each primitive. */
  function SizeOf(p: Primitive): (size: nat)
    ensures size == 1 || size == 2 || size == 4 || size == 8
    ensures size == 1 <==> p == U8 || p == I8
  {
    match p
    case U8 | I8 => 1
    case U16 | I16 => 2
    case U32 | I32 => 4
    case U64 | I64 => 8
  }

  predicate IsSigned(p: Primitive)
  {
    p == I8 || p == I16 || p == I32 || p == I64
  }

  /** 256 to the power `n`: the number of distinct values of an `n`-byte integer. */
  function Pow256(n: nat): (r: nat)
    ensures r >= 1
  {
    if n == 0 then 1 else 256 * Pow256(n - 1)
  }

  /** The values of the Rust integer type `p`. */
  predicate InRange(p: Primitive, v: int)
  {
    var modulus := Pow256(SizeOf(p));
    if IsSigned(p) then -(modulus / 2) <= v < modulus / 2 else 0 <= v < modulus
  }

  /** The unsigned value of `bytes`, most significant byte first. */
  function BigEndianValue(bytes: seq<byte>): (v: nat)
    ensures v < Pow256(|bytes|)
  {
    if bytes == [] then 0
    else BigEndianValue(bytes[..|bytes| - 1]) * 256 + bytes[|bytes| - 1] as nat
  }

  /** The unsigned value of `bytes`, least significant byte first. */
  function LittleEndianValue(bytes: seq<byte>): (v: nat)
    ensures v < Pow256(|bytes|)
  {
    if bytes == [] then 0
    else bytes[0] as nat + 256 * LittleEndianValue(bytes[1..])
  }

  function Reverse(s: seq<byte>): (r: seq<byte>)
    ensures |r| == |s|
    ensures forall i :: 0 <= i < |s| ==> r[i] == s[|s| - 1 - i]
  {
    if s == [] then [] else Reverse(s[1..]) + [s[0]]
  }

  /** Reading little-endian is reading the reversed bytes big-endian. */
  lemma {:induction false} LittleEndianIsReversedBigEndian(bytes: seq<byte>)
    ensures LittleEndianValue(bytes) == BigEndianValue(Reverse(bytes))
  {
    if bytes != [] {
      var r := Reverse(bytes);
      LittleEndianIsReversedBigEndian(bytes[1..]);
      assert r == Reverse(bytes[1..]) + [bytes[0]];
      assert r[..|r| - 1] == Reverse(bytes[1..]);
    }
  }

  function Unsigned(order: Endian, bytes: seq<byte>): nat
  {
    match order
    case BigEndian => BigEndianValue(bytes)
    case LittleEndian => LittleEndianValue(bytes)
  }

  /** A positive multiple of a positive number is at least that number. */
  lemma MultipleAtLeast(k: int, m: int)
    requires k >= 1 && m > 0
    ensures k * m >= m
  {
    if k > 1 {
      MultipleAtLeast(k - 1, m);
      assert k * m == (k - 1) * m + m;
    }
  }

  /** Euclidean remainder is determined by any decomposition `x == q * m + r` with `0 <= r < m`. */
  lemma ModOfDecomposition(x: int, m: int, q: int, r: int)
    requires m > 0 && 0 <= r < m && x == q * m + r
    ensures x % m == r && x / m == q
  {
    var q', r' := x / m, x % m;
    assert x == q' * m + r';
    if q' < q {
      assert (q - q') * m == q * m - q' * m;
      MultipleAtLeast(q - q', m);
    } else if q' > q {
      assert (q' - q) * m == q' * m - q * m;
      MultipleAtLeast(q' - q, m);
    }
  }

  /** 256^n is even and its half is positive. */
  lemma HalfModulus(n: nat)
    requires 1 <= n
    ensures Pow256(n) == 2 * (Pow256(n) / 2) && Pow256(n) / 2 >= 1
  {
    var half := 128 * Pow256(n - 1);
    assert Pow256(n) == 2 * half;
    ModOfDecomposition(Pow256(n), 2, half, 0);
  }

  /** The two's-complement reading of the `n`-byte unsigned value `u`: the
      one value of the signed range whose Euclidean remainder is `u`. */
  function TwosComplement(u: nat, n: nat): (v: int)
    requires 1 <= n && u < Pow256(n)
    ensures -(Pow256(n) / 2) <= v < Pow256(n) / 2
    ensures v % Pow256(n) == u
  {
    var modulus := Pow256(n);
    HalfModulus(n);
    if u < modulus / 2 then
      ModOfDecomposition(u, modulus, 0, u);
      u
    else
      ModOfDecomposition(u - modulus, modulus, -1, u);
      u - modulus
  }

  /** The `byteorder` readers `BE::read_*` and `LE::read_*` for the type `p`:
      the leading `SIZE` bytes in the given order, signed types in two's complement. */
  function Read(p: Primitive, order: Endian, buffer: seq<byte>): (v: int)
    requires |buffer| >= SizeOf(p)
    ensures InRange(p, v)
  {
    var u := Unsigned(order, buffer[..SizeOf(p)]);
    assert u < Pow256(SizeOf(p)) by {
      if order == BigEndian {
        assert u == BigEndianValue(buffer[..SizeOf(p)]);
      } else {
        assert u == LittleEndianValue(buffer[..SizeOf(p)]);
      }
    }
    if IsSigned(p) then TwosComplement(u, SizeOf(p)) else u
  }

  /** `read_u8`: the first byte. */
  function ReadU8(buffer: seq<byte>): (v: int)
    requires |buffer| >= 1
    ensures v == Read(U8, BigEndian, buffer)
  {
    assert buffer[..1][..0] == [];
    buffer[0] as int
  }

  /** `read_i8`: the first byte reinterpreted as `i8` (`buf[0] as i8`). */
  function ReadI8(buffer: seq<byte>): (v: int)
    requires |buffer| >= 1
    ensures -128 <= v < 128
    ensures v % 256 == buffer[0] as int
    ensures v == Read(I8, BigEndian, buffer)
  {
    assert buffer[..1][..0] == [];
    var b := buffer[0] as int;
    if b < 128 then b else b - 256
  }

  /** `Declarative::parse` of the unqualified primitives: length check, then a
      big-endian read (`read_u8` / `read_i8` for the one-byte types), then
      advance by `SIZE`. */
  function ParsePrimitive(p: Primitive, buffer: seq<byte>): (r: DeclResult<int>)
    ensures r.Err? <==> |buffer| < SizeOf(p)
    ensures r.Err? ==> r.error == InsufficientBytes
    ensures r.Ok? ==> r.rest == buffer[SizeOf(p)..] && InRange(p, r.value)
    ensures r.Ok? ==> r.value == Read(p, BigEndian, buffer)
  {
    if |buffer| < SizeOf(p) then Err(InsufficientBytes)
    else
      var dest :=
        match p
        case U8 => ReadU8(buffer)
        case I8 => ReadI8(buffer)
        case _ => Read(p, BigEndian, buffer);
      Ok(dest, buffer[SizeOf(p)..])
  }

  /** The primitive `p` as a statically sized decodable type. */
  function PrimitiveType(p: Primitive): (t: Decodable<int>)
    ensures t.size == SizeOf(p)
  {
    Decodable(SizeOf(p), (buffer: seq<byte>) => ParsePrimitive(p, buffer))
  }

  /** Every primitive honours its `SIZE`. */
  lemma PrimitiveHonoursSize(p: Primitive)
    ensures ExactWidth(PrimitiveType(p).parse, SizeOf(p))
  {
    forall buffer
      ensures var r := PrimitiveType(p).parse(buffer);
        (r.Err? <==> |buffer| < SizeOf(p)) &&
        (r.Err? ==> r.error == InsufficientBytes) &&
        (r.Ok? ==> r.rest == buffer[SizeOf(p)..])
    {
      assert PrimitiveType(p).parse(buffer) == ParsePrimitive(p, buffer);
    }
  }

  // ---------------------------------------------------------------------------
  // Encoding, the inverse the decoders are checked against. The crate has no
  // write path; these functions only serve to state what decoding recovers.

  /** The `n` bytes of `v` modulo `256^n`, most significant first. */
  function EncodeUnsigned(v: nat, n: nat): (bytes: seq<byte>)
    ensures |bytes| == n
  {
    if n == 0 then [] else EncodeUnsigned(v / 256, n - 1) + [(v % 256) as byte]
  }

  /** The big-endian bytes of a value of type `p` (two's complement for signed types). */
  function Encode(p: Primitive, v: int): (bytes: seq<byte>)
    ensures |bytes| == SizeOf(p)
  {
    EncodeUnsigned(v % Pow256(SizeOf(p)), SizeOf(p))
  }

  lemma {:induction false} BigEndianOfEncode(v: nat, n: nat)
    requires v < Pow256(n)
    ensures BigEndianValue(EncodeUnsigned(v, n)) == v
  {
    if n > 0 {
      var bytes := EncodeUnsigned(v, n);
      assert bytes[..n - 1] == EncodeUnsigned(v / 256, n - 1);
      BigEndianOfEncode(v / 256, n - 1);
    }
  }

  lemma {:induction false} EncodeOfBigEndian(bytes: seq<byte>)
    ensures EncodeUnsigned(BigEndianValue(bytes), |bytes|) == bytes
  {
    if bytes != [] {
      var n := |bytes|;
      var front := bytes[..n - 1];
      var v := BigEndianValue(bytes);
      assert v == BigEndianValue(front) * 256 + bytes[n - 1] as nat;
      assert v / 256 == BigEndianValue(front);
      assert v % 256 == bytes[n - 1] as nat;
      EncodeOfBigEndian(front);
      assert bytes == front + [bytes[n - 1]];
    }
  }

  /** The two's-complement reading undoes the Euclidean remainder on the signed range. */
  lemma TwosComplementOfRemainder(v: int, n: nat)
    requires 1 <= n && -(Pow256(n) / 2) <= v < Pow256(n) / 2
    ensures v % Pow256(n) < Pow256(n)
    ensures TwosComplement(v % Pow256(n), n) == v
  {
    var modulus := Pow256(n);
    assert modulus == 256 * Pow256(n - 1);
    if v >= 0 {
      ModOfDecomposition(v, modulus, 0, v);
    } else {
      ModOfDecomposition(v, modulus, -1, v + modulus);
    }
  }

  /** Reading the encoding of an in-range value gives the value back. */
  lemma ReadOfEncode(p: Primitive, v: int, tail: seq<byte>)
    requires InRange(p, v)
    ensures |Encode(p, v) + tail| >= SizeOf(p)
    ensures Read(p, BigEndian, Encode(p, v) + tail) == v
  {
    var n := SizeOf(p);
    var modulus := Pow256(n);
    var buffer := Encode(p, v) + tail;
    assert buffer[..n] == Encode(p, v);
    if IsSigned(p) {
      TwosComplementOfRemainder(v, n);
    } else {
      ModOfDecomposition(v, modulus, 0, v);
    }
    BigEndianOfEncode(v % modulus, n);
  }

  /** Decoding a value's encoding, followed by anything, gives back the value and the rest. */
  lemma ParsePrimitiveOfEncode(p: Primitive, v: int, tail: seq<byte>)
    requires InRange(p, v)
    ensures ParsePrimitive(p, Encode(p, v) + tail) == Ok(v, tail)
  {
    var buffer := Encode(p, v) + tail;
    assert buffer[SizeOf(p)..] == tail;
    ReadOfEncode(p, v, tail);
  }

  /** What a successful decode consumed is exactly the encoding of the value it returned. */
  lemma EncodeOfParsePrimitive(p: Primitive, buffer: seq<byte>)
    requires ParsePrimitive(p, buffer).Ok?
    ensures Encode(p, ParsePrimitive(p, buffer).value) + ParsePrimitive(p, buffer).rest == buffer
  {
    var n := SizeOf(p);
    var bytes := buffer[..n];
    var u := BigEndianValue(bytes);
    var v := ParsePrimitive(p, buffer).value;
    assert v == Read(p, BigEndian, buffer);
    if !IsSigned(p) {
      ModOfDecomposition(u, Pow256(n), 0, u);
    }
    assert v % Pow256(n) == u;
    EncodeOfBigEndian(bytes);
    assert bytes + buffer[n..] == buffer;
  }

  // ---------------------------------------------------------------------------
  // The wrapper newtypes of `define_wrappers!`.

  /** The byte-order family of a wrapper newtype: `Be*`, `Le*` or `Ne*`. */
  datatype Family = Be | Le | Ne

  /** Wrappers exist for the 16-, 32- and 64-bit types only. */
  type WidePrimitive = p: Primitive | p != U8 && p != I8 witness U16

  /** A value of a wrapper newtype such as `LeU32(x)`: its family, the wrapped
      integer type, and the wrapped value. */
  datatype Wrapper = Wrapper(family: Family, kind: WidePrimitive, value: int)

  /** `From<ty>`: wraps the value unchanged. */
  function From(family: Family, kind: WidePrimitive, value: int): (w: Wrapper)
    requires InRange(kind, value)
    ensures w.family == family && w.kind == kind && w.value == value
  {
    Wrapper(family, kind, value)
  }

  /** The byte order a family reads in; `native` is the target's byte order. */
  function OrderOf(family: Family, native: Endian): Endian
  {
    match family
    case Be => BigEndian
    case Le => LittleEndian
    case Ne => native
  }

  /** `Declarative::parse` of a wrapper: length check, read in the family's byte
      order, wrap, advance by `SIZE`. `SIZE` is that of the wrapped type in
      every family. */
  function ParseWrapper(family: Family, kind: WidePrimitive, native: Endian, buffer: seq<byte>): (r: DeclResult<Wrapper>)
    ensures r.Err? <==> |buffer| < SizeOf(kind)
    ensures r.Err? ==> r.error == InsufficientBytes
    ensures r.Ok? ==> r.rest == buffer[SizeOf(kind)..]
    ensures r.Ok? ==> r.value.family == family && r.value.kind == kind && InRange(kind, r.value.value)
  {
    if |buffer| < SizeOf(kind) then Err(InsufficientBytes)
    else
      var dest := Read(kind, OrderOf(family, native), buffer);
      Ok(From(family, kind, dest), buffer[SizeOf(kind)..])
  }

  /** A `Be*` wrapper decodes the same value and remainder as the unqualified type. */
  lemma BeWrapperAgreesWithDefault(kind: WidePrimitive, native: Endian, buffer: seq<byte>)
    ensures ParseWrapper(Be, kind, native, buffer).Ok? <==> ParsePrimitive(kind, buffer).Ok?
    ensures ParseWrapper(Be, kind, native, buffer).Ok? ==>
      ParseWrapper(Be, kind, native, buffer).value.value == ParsePrimitive(kind, buffer).value &&
      ParseWrapper(Be, kind, native, buffer).rest == ParsePrimitive(kind, buffer).rest
  {
  }

  /** A `Le*` wrapper over `bytes` decodes what the unqualified type decodes over the reversed bytes. */
  lemma LeWrapperReadsReversed(kind: WidePrimitive, native: Endian, bytes: seq<byte>, tail: seq<byte>)
    requires |bytes| == SizeOf(kind)
    ensures ParsePrimitive(kind, Reverse(bytes)).Ok?
    ensures ParseWrapper(Le, kind, native, bytes + tail)
         == Ok(From(Le, kind, ParsePrimitive(kind, Reverse(bytes)).value), tail)
  {
    var buffer := bytes + tail;
    assert buffer[..SizeOf(kind)] == bytes;
    assert buffer[SizeOf(kind)..] == tail;
    assert Reverse(bytes)[..SizeOf(kind)] == Reverse(bytes);
    LittleEndianIsReversedBigEndian(bytes);
  }

  /** An `Ne*` wrapper decodes as the `Be*` or `Le*` one of the target's byte order. */
  lemma NeWrapperFollowsNative(kind: WidePrimitive, native: Endian, buffer: seq<byte>)
    ensures var same := if native == BigEndian then Be else Le;
      ParseWrapper(Ne, kind, native, buffer) ==
        match ParseWrapper(same, kind, native, buffer)
        case Ok(w, rest) => Ok(w.(family := Ne), rest)
        case Err(e) => Err(e)
  {
  }
}
