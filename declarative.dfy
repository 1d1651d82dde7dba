/** The `DeclRead` cursor over `&[u8]` and the `Tag` validators. */
module Declarative {
  import opened DeclBase
  import opened Primitives
  import Arrays

  // ---------------------------------------------------------------------------
  // Tags

  /** The literals that implement `Tag`: a `str`, a `[u8]`, or a primitive value. */
  datatype Tag = Str(text: string) | ByteStr(bytes: seq<byte>) | Prim(kind: Primitive, expected: int)

  /** The UTF-8 bytes of one Unicode scalar value. */
  function Utf8Char(c: char): (bytes: seq<byte>)
    ensures 1 <= |bytes| <= 4
    ensures (c as int < 0x80) <==> |bytes| == 1
  {
    var n := c as int;
    if n < 0x80 then [n as byte]
    else if n < 0x800 then [(0xC0 + n / 0x40) as byte, (0x80 + n % 0x40) as byte]
    else if n < 0x10000 then
      [(0xE0 + n / 0x1000) as byte, (0x80 + (n / 0x40) % 0x40) as byte, (0x80 + n % 0x40) as byte]
    else
      [(0xF0 + n / 0x40000) as byte, (0x80 + (n / 0x1000) % 0x40) as byte,
       (0x80 + (n / 0x40) % 0x40) as byte, (0x80 + n % 0x40) as byte]
  }

  /** `str::as_bytes`: the UTF-8 encoding of the text. */
  function Utf8(s: string): (bytes: seq<byte>)
    ensures |s| <= |bytes| <= 4 * |s|
  {
    if s == [] then [] else Utf8Char(s[0]) + Utf8(s[1..])
  }

  /** `Tag::validate` for `[u8]`: a buffer shorter than the literal gives
      `InsufficientBytes`; otherwise the literal must be a prefix of the buffer,
      and the result is what follows it. */
  function ValidateByteStr(literal: seq<byte>, buffer: seq<byte>): (r: Result<seq<byte>>)
    ensures r == Failure(InsufficientBytes) <==> |buffer| < |literal|
    ensures r.Success? <==> literal <= buffer
    ensures r.Failure? && |literal| <= |buffer| ==> r.error == InvalidVersion
    ensures r.Success? ==> literal + r.value == buffer
  {
    if |buffer| < |literal| then Failure(InsufficientBytes)
    else if buffer[..|literal|] == literal then Success(buffer[|literal|..])
    else Failure(InvalidVersion)
  }

  /** `Tag::validate` for `str`: the same check against the text's UTF-8 bytes
      (`self.len()` is the byte length). */
  function ValidateStr(text: string, buffer: seq<byte>): (r: Result<seq<byte>>)
    ensures r == Failure(InsufficientBytes) <==> |buffer| < |Utf8(text)|
    ensures r.Success? <==> Utf8(text) <= buffer
    ensures r.Failure? && |Utf8(text)| <= |buffer| ==> r.error == InvalidVersion
    ensures r.Success? ==> Utf8(text) + r.value == buffer
  {
    ValidateByteStr(Utf8(text), buffer)
  }

  /** `Tag::validate` for a primitive, as written: the value is decoded and
      thrown away, never compared with the expected one. */
  function ValidatePrimitiveAsWritten(kind: Primitive, expected: int, buffer: seq<byte>): (r: Result<seq<byte>>)
    ensures r.Success? <==> |buffer| >= SizeOf(kind)
    ensures r.Failure? ==> r.error == InsufficientBytes
    ensures r.Success? ==> r.value == buffer[SizeOf(kind)..]
  {
    match ParsePrimitive(kind, buffer)
    case Ok(_, rest) => Success(rest)
    case Err(e) => Failure(e)
  }

  /** The as-written primitive tag accepts bytes that do not encode the expected
      value: a `u16` tag of 1 accepts the bytes 0x00 0x02. */
  lemma PrimitiveTagAcceptsAnyValue()
    ensures ParsePrimitive(U16, [0, 2]).value == 2
    ensures ValidatePrimitiveAsWritten(U16, 1, [0, 2]) == Success([])
  {
    assert [0, 2][..1] == [0 as byte];
    assert [0 as byte, 2][..2] == [0, 2];
  }

  /** `Tag::validate` for a primitive, corrected: the decoded value must equal
      the expected one, otherwise `InvalidVersion`, like the `str` and `[u8]` tags. */
  function ValidatePrimitive(kind: Primitive, expected: int, buffer: seq<byte>): (r: Result<seq<byte>>)
    ensures r == Failure(InsufficientBytes) <==> |buffer| < SizeOf(kind)
    ensures r.Success? <==> |buffer| >= SizeOf(kind) && Read(kind, BigEndian, buffer) == expected
    ensures r.Success? ==> r.value == buffer[SizeOf(kind)..]
  {
    match ParsePrimitive(kind, buffer)
    case Ok(value, rest) => if value == expected then Success(rest) else Failure(InvalidVersion)
    case Err(e) => Failure(e)
  }

  /** The corrected primitive tag is the byte-string tag of the expected value's
      big-endian encoding. */
  lemma ValidatePrimitiveIsByteStr(kind: Primitive, expected: int, buffer: seq<byte>)
    requires InRange(kind, expected)
    ensures ValidatePrimitive(kind, expected, buffer) == ValidateByteStr(Encode(kind, expected), buffer)
  {
    var n := SizeOf(kind);
    var literal := Encode(kind, expected);
    if |buffer| >= n {
      var tail := buffer[n..];
      if buffer[..n] == literal {
        assert buffer == literal + tail;
        ParsePrimitiveOfEncode(kind, expected, tail);
      } else {
        EncodeOfParsePrimitive(kind, buffer);
        assert buffer[..n] == Encode(kind, ParsePrimitive(kind, buffer).value);
      }
    }
  }

  /** `Tag::validate`, dispatched on the kind of literal, as the code does it:
      a primitive tag does not compare the value. */
  function Validate(tag: Tag, buffer: seq<byte>): (r: Result<seq<byte>>)
    ensures r.Success? ==> IsSuffix(r.value, buffer)
    ensures tag.ByteStr? ==> r == ValidateByteStr(tag.bytes, buffer)
    ensures tag.Str? ==> r == ValidateByteStr(Utf8(tag.text), buffer)
    ensures tag.Prim? ==> r == ValidatePrimitiveAsWritten(tag.kind, tag.expected, buffer)
  {
    match tag
    case Str(text) => ValidateStr(text, buffer)
    case ByteStr(bytes) => ValidateByteStr(bytes, buffer)
    case Prim(kind, expected) => ValidatePrimitiveAsWritten(kind, expected, buffer)
  }

  /** `Tag::validate` with the primitive tags corrected to compare the value. */
  function ValidateCorrected(tag: Tag, buffer: seq<byte>): (r: Result<seq<byte>>)
    ensures r.Success? ==> IsSuffix(r.value, buffer)
    ensures tag.Prim? ==> r == ValidatePrimitive(tag.kind, tag.expected, buffer)
    ensures tag.ByteStr? ==> r == ValidateByteStr(tag.bytes, buffer)
    ensures tag.Str? ==> r == ValidateByteStr(Utf8(tag.text), buffer)
  {
    match tag
    case Str(text) => ValidateStr(text, buffer)
    case ByteStr(bytes) => ValidateByteStr(bytes, buffer)
    case Prim(kind, expected) => ValidatePrimitive(kind, expected, buffer)
  }

  /** The correction only makes primitive tags stricter: the two agree on
      `str` and `[u8]` tags, on every short buffer, and wherever the corrected
      one succeeds; they differ exactly where the bytes read as another value. */
  lemma CorrectionOnlyRejectsMismatches(tag: Tag, buffer: seq<byte>)
    ensures !tag.Prim? ==> ValidateCorrected(tag, buffer) == Validate(tag, buffer)
    ensures ValidateCorrected(tag, buffer).Success? ==> ValidateCorrected(tag, buffer) == Validate(tag, buffer)
    ensures Validate(tag, buffer).Failure? ==> ValidateCorrected(tag, buffer) == Validate(tag, buffer)
    ensures ValidateCorrected(tag, buffer) != Validate(tag, buffer) <==>
      tag.Prim? && |buffer| >= SizeOf(tag.kind) && Read(tag.kind, BigEndian, buffer) != tag.expected
  {
  }

  // ---------------------------------------------------------------------------
  // The cursor

  /** `DeclRead for &'buf [u8]`: a mutable place holding the current view of the
      buffer, which successful decodes move forward. */
  class Cursor {
    var buf: seq<byte>

    constructor (buffer: seq<byte>)
      ensures buf == buffer
    {
      buf := buffer;
    }

    /** `DeclRead::parse`: on success the cursor moves to the decoder's
        remainder and the value is returned; on failure the cursor stays put
        and the error is returned. */
    method Parse<T>(p: Parser<T>) returns (r: Result<T>)
      modifies this
      ensures old(p(buf)).Ok? ==> r == Success(old(p(buf)).value) && buf == old(p(buf)).rest
      ensures old(p(buf)).Err? ==> r == Failure(old(p(buf)).error) && buf == old(buf)
      ensures Advancing(p) ==> IsSuffix(buf, old(buf))
    {
      match p(buf)
      case Ok(result, rest) =>
        buf := rest;
        r := Success(result);
      case Err(e) =>
        r := Failure(e);
    }

    /** `DeclRead::parse_with`: `parse` for a decoder that takes an argument. */
    method ParseWith<T, A>(p: ParserWith<T, A>, argument: A) returns (r: Result<T>)
      modifies this
      ensures old(p(buf, argument)).Ok? ==> r == Success(old(p(buf, argument)).value) && buf == old(p(buf, argument)).rest
      ensures old(p(buf, argument)).Err? ==> r == Failure(old(p(buf, argument)).error) && buf == old(buf)
    {
      match p(buf, argument)
      case Ok(result, rest) =>
        buf := rest;
        r := Success(result);
      case Err(e) =>
        r := Failure(e);
    }

    /** `DeclRead::parse_array`: `parse_with::<Array<T>>((length, ()))`. */
    method ParseArray(length: nat) returns (r: Result<Arrays.Array<()>>)
      modifies this
      ensures r == Success(Arrays.ParseArray(old(buf), (length, ())).value)
      ensures r.value == Arrays.Array(old(buf), length, ())
      ensures buf == old(buf)
    {
      r := ParseWith((b: seq<byte>, arguments: (nat, ())) => Arrays.ParseArray(b, arguments), (length, ()));
    }

    /** `DeclRead::parse_array_with`: `parse_with::<Array<T>>((length, argument))`. */
    method ParseArrayWith<A>(length: nat, argument: A) returns (r: Result<Arrays.Array<A>>)
      modifies this
      ensures r == Success(Arrays.ParseArray(old(buf), (length, argument)).value)
      ensures r.value == Arrays.Array(old(buf), length, argument)
      ensures buf == old(buf)
    {
      r := ParseWith((b: seq<byte>, arguments: (nat, A)) => Arrays.ParseArray(b, arguments), (length, argument));
    }

    /** `DeclRead::tag`: the validator's result, primitive tags as written; the
        cursor itself is not moved. */
    method ValidateTag(tag: Tag) returns (r: Result<seq<byte>>)
      modifies this
      ensures r == Validate(tag, old(buf))
      ensures buf == old(buf)
    {
      r := Validate(tag, buf);
    }
  }
}
