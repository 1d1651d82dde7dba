/** `define_offsets!`: `Offset8`, `Offset16`, `Offset32` and `Offset64`. */
module Offsets {
  import opened DeclBase
  import opened Primitives

  /** Which of the four offset types. */
  datatype Width = Offset8 | Offset16 | Offset32 | Offset64

  /** The unsigned primitive each offset type reads. */
  function OffsetPrimitive(width: Width): (p: Primitive)
    ensures !IsSigned(p)
  {
    match width
    case Offset8 => U8
    case Offset16 => U16
    case Offset32 => U32
    case Offset64 => U64
  }

  /** `StaticEncodingSize::SIZE` of an offset type: the width of the offset
      integer alone, whatever the item it points at. */
  function OffsetSize(width: Width): (size: nat)
    ensures size == SizeOf(OffsetPrimitive(width))
  {
    match width
    case Offset8 => 1
    case Offset16 => 2
    case Offset32 => 4
    case Offset64 => 8
  }

  /** A value of an offset type: the view of the reference region it points
      at, and the argument for the item there. */
  datatype Offset<A> = Offset(width: Width, buffer: seq<byte>, argument: A)

  /** `parse_with` of an offset type, with `argument = (reference, item argument)`:
      read the offset integer (its own `InsufficientBytes` propagated), reject an
      offset past the end of the reference region with `InsufficientBytes`, and
      otherwise view the reference region from that offset on. The remainder is
      the buffer after the offset integer. */
  function ParseOffset<A>(width: Width, buffer: seq<byte>, argument: (seq<byte>, A)): (r: DeclResult<Offset<A>>)
    ensures r.Err? ==> r.error == InsufficientBytes
    ensures |buffer| < OffsetSize(width) ==> r.Err?
    ensures |buffer| >= OffsetSize(width) ==>
      (r.Ok? <==> BigEndianValue(buffer[..OffsetSize(width)]) <= |argument.0|)
    ensures r.Ok? ==> r.rest == buffer[OffsetSize(width)..]
    ensures r.Ok? ==> IsSuffix(r.value.buffer, argument.0)
    ensures r.Ok? ==> |argument.0| - |r.value.buffer| == BigEndianValue(buffer[..OffsetSize(width)])
    ensures r.Ok? ==> r.value.width == width && r.value.argument == argument.1
  {
    match ParsePrimitive(OffsetPrimitive(width), buffer)
    case Err(e) => Err(e)
    case Ok(offset, rest) =>
      if |argument.0| < offset then Err(InsufficientBytes)
      else Ok(Offset(width, argument.0[offset..], argument.1), rest)
  }

  /** An offset equal to the length of the reference region is accepted and
      gives an empty view. */
  lemma OffsetAtEndIsEmpty<A>(width: Width, buffer: seq<byte>, reference: seq<byte>, argument: A)
    requires |buffer| >= OffsetSize(width)
    requires BigEndianValue(buffer[..OffsetSize(width)]) == |reference|
    ensures ParseOffset(width, buffer, (reference, argument)).Ok?
    ensures ParseOffset(width, buffer, (reference, argument)).value.buffer == []
  {
  }

  /** The outcome's remainder does not depend on the reference region: any two
      references that both admit the offset give the same remainder, and a
      longer reference admits whatever a shorter one does. */
  lemma OffsetRemainderIgnoresReference<A>(width: Width, buffer: seq<byte>, reference: seq<byte>, other: seq<byte>, argument: A)
    requires ParseOffset(width, buffer, (reference, argument)).Ok?
    requires |other| >= |reference|
    ensures ParseOffset(width, buffer, (other, argument)).Ok?
    ensures ParseOffset(width, buffer, (other, argument)).rest == ParseOffset(width, buffer, (reference, argument)).rest
  {
  }

  /** An offset written with the offset type's own encoding lands at that
      position of the reference region. */
  lemma ParseOffsetOfEncode<A>(width: Width, offset: nat, tail: seq<byte>, reference: seq<byte>, argument: A)
    requires offset <= |reference| && offset < Pow256(OffsetSize(width))
    ensures ParseOffset(width, Encode(OffsetPrimitive(width), offset) + tail, (reference, argument))
         == Ok(Offset(width, reference[offset..], argument), tail)
  {
    ParsePrimitiveOfEncode(OffsetPrimitive(width), offset, tail);
  }
}
