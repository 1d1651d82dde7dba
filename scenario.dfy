/** Arrays of primitive items, and a worked record: the tag "OTTO", a `u16`
    count, then that many big-endian `u16` values. */
module PrimitiveArrays {
  import opened DeclBase
  import opened Primitives
  import opened Arrays
  import opened Declarative

  /** A primitive, as an array item: `parse_with(buffer, ())`. */
  function PrimitiveItem(p: Primitive): (item: ParserWith<int, ()>)
    ensures forall buffer :: item(buffer, ()) == ParsePrimitive(p, buffer)
  {
    WithUnit(PrimitiveType(p).parse)
  }

  /** A primitive item consumes exactly its `SIZE` and fails exactly on a
      shorter buffer: the two facts the array lemmas ask of an item. */
  lemma PrimitiveItemIsExact(p: Primitive)
    ensures ConsumesExactly(PrimitiveItem(p), SizeOf(p))
    ensures forall b {:trigger PrimitiveItem(p)(b, ())} :: PrimitiveItem(p)(b, ()).Err? <==> |b| < SizeOf(p)
  {
    forall b: seq<byte>, u: ()
      ensures PrimitiveItem(p)(b, u).Ok? ==> SizeOf(p) <= |b| && PrimitiveItem(p)(b, u).rest == b[SizeOf(p)..]
    {
      assert u == ();
    }
  }

  /** Iterating an array of `n` primitives over a buffer of at least
      `n * SIZE` bytes: item `i` is the value read at offset `i * SIZE`. */
  lemma PrimitiveArrayYields(p: Primitive, start: seq<byte>, n: nat, i: nat)
    requires n * SizeOf(p) <= |start| && i < n
    ensures i * SizeOf(p) + SizeOf(p) <= |start|
    ensures Yields(PrimitiveItem(p), (), start, n)[i] == Success(Read(p, BigEndian, start[i * SizeOf(p)..]))
  {
    var item, s := PrimitiveItem(p), SizeOf(p);
    PrimitiveItemIsExact(p);
    MonotoneProduct(i + 1, n, s);
    MultiplySuccessor(i, s);
    AllSucceedIffLongEnough(item, (), start, s, i);
    ElementAtOffset(item, (), start, s, n, i);
    var at := start[i * s..];
    assert item(at, ()) == ParsePrimitive(p, at);
  }

  /** ... and after the `n` items the iterator's buffer is at offset `n * SIZE`. */
  lemma PrimitiveArrayConsumes(p: Primitive, start: seq<byte>, n: nat)
    requires n * SizeOf(p) <= |start|
    ensures Position(PrimitiveItem(p), (), start, n) == start[n * SizeOf(p)..]
  {
    var item, s := PrimitiveItem(p), SizeOf(p);
    PrimitiveItemIsExact(p);
    AllSucceedIffLongEnough(item, (), start, s, n);
    PositionOfExactItems(item, (), start, s, n);
  }

  lemma MonotoneProduct(a: nat, b: nat, c: nat)
    requires a <= b
    ensures a * c <= b * c
  {
  }

  /** The record `"OTTO"`, count 3, then 1, 2, 3 as big-endian `u16`s. */
  const Otto: seq<byte> := [79, 84, 84, 79, 0, 3, 0, 1, 0, 2, 0, 3]

  /** The tag "OTTO" matches the record and leaves the bytes after it. */
  lemma OttoTag()
    ensures ValidateStr("OTTO", Otto) == Success(Otto[4..])
  {
    assert Utf8("OTTO") == Otto[..4] by {
      assert Utf8("O") == [79];
      assert Utf8("TO") == [84, 79];
      assert Utf8("TTO") == [84, 84, 79];
    }
  }

  /** A big-endian `u16` read of the bytes `hi`, `lo`. */
  lemma ReadU16Bytes(buffer: seq<byte>)
    requires |buffer| >= 2
    ensures Read(U16, BigEndian, buffer) == buffer[0] as int * 256 + buffer[1] as int
  {
    var two := buffer[..2];
    assert two[..1] == [buffer[0]];
    assert [buffer[0]][..0] == [];
    assert BigEndianValue([buffer[0]]) == buffer[0] as int;
    assert BigEndianValue(two) == buffer[0] as int * 256 + buffer[1] as int;
    assert Unsigned(BigEndian, two) == BigEndianValue(two);
  }

  /** The count after the tag reads 3 and leaves the six bytes of items. */
  lemma OttoCount()
    ensures ParsePrimitive(U16, Otto[4..]) == Ok(3, Otto[6..])
  {
    ReadU16Bytes(Otto[4..]);
  }

  /** An array of three `u16` over those bytes yields 1, 2 and 3 and leaves nothing. */
  lemma OttoItems()
    ensures Yields(PrimitiveItem(U16), (), Otto[6..], 3) == [Success(1), Success(2), Success(3)]
    ensures Position(PrimitiveItem(U16), (), Otto[6..], 3) == []
  {
    var items: seq<byte> := [0, 1, 0, 2, 0, 3];
    assert Otto[6..] == items;
    var ys := Yields(PrimitiveItem(U16), (), items, 3);
    PrimitiveArrayYields(U16, items, 3, 0);
    PrimitiveArrayYields(U16, items, 3, 1);
    PrimitiveArrayYields(U16, items, 3, 2);
    ReadU16Bytes(items[0..]);
    ReadU16Bytes(items[2..]);
    ReadU16Bytes(items[4..]);
    assert ys == [ys[0], ys[1], ys[2]];
    PrimitiveArrayConsumes(U16, items, 3);
  }
}
