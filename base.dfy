/** The vocabulary every decoder of the crate shares: bytes, the error kinds,
    the result of a decode step, and the two decode protocols (`Declarative`
    and `DeclarativeWithArgs`) with the bridges between them. */
module DeclBase {

  /** One byte of the input buffer (`u8`). */
  newtype byte = x: int | 0 <= x < 0x100

  /** The failure kinds of the crate's `error` module that the core uses. */
  datatype Error = InsufficientBytes | InvalidVersion

  /** `DeclResult<'buf, T>`: the decoded value with the rest of the buffer, or an error. */
  datatype DeclResult<+T> = Ok(value: T, rest: seq<byte>) | Err(error: Error)

  /** `Result<T, Error>`, what the cursor methods hand back to their caller. */
  datatype Result<+T> = Success(value: T) | Failure(error: Error)

  datatype Option<+T> = None | Some(value: T)

  /** `Declarative::parse` of some type `T`. */
  type Parser<T> = seq<byte> -> DeclResult<T>

  /** `DeclarativeWithArgs::parse_with` of some type `T` whose argument has type `A`. */
  type ParserWith<T, -A> = (seq<byte>, A) -> DeclResult<T>

  /** A type that is both `Declarative` and `StaticEncodingSize`: its parser and its `SIZE`. */
  datatype Decodable<T> = Decodable(size: nat, parse: Parser<T>)

  /** `s` is what is left of `whole` after some prefix of it was consumed. */
  predicate IsSuffix(s: seq<byte>, whole: seq<byte>)
  {
    |s| <= |whole| && s == whole[|whole| - |s|..]
  }

  /** On success the decoder hands back a suffix of its input: the cursor never rewinds. */
  ghost predicate Advancing<T>(p: Parser<T>)
  {
    forall buffer :: p(buffer).Ok? ==> IsSuffix(p(buffer).rest, buffer)
  }

  /** The decoder honours a static `SIZE`: it fails with `InsufficientBytes`
      exactly on a buffer shorter than `size`, and otherwise consumes exactly `size` bytes. */
  ghost predicate ExactWidth<T>(p: Parser<T>, size: nat)
  {
    forall buffer {:trigger p(buffer)} ::
      (p(buffer).Err? <==> |buffer| < size) &&
      (p(buffer).Err? ==> p(buffer).error == InsufficientBytes) &&
      (p(buffer).Ok? ==> p(buffer).rest == buffer[size..])
  }

  /** On success the decoder, whatever its argument, consumes exactly `size` bytes. */
  ghost predicate ConsumesExactly<T, A(!new)>(p: ParserWith<T, A>, size: nat)
  {
    forall buffer, argument ::
      p(buffer, argument).Ok? ==> size <= |buffer| && p(buffer, argument).rest == buffer[size..]
  }

  /** A decoder that honours its `SIZE` never rewinds the cursor. */
  lemma ExactWidthAdvances<T>(p: Parser<T>, size: nat)
    requires ExactWidth(p, size)
    ensures Advancing(p)
  {
    forall buffer | p(buffer).Ok?
      ensures IsSuffix(p(buffer).rest, buffer)
    {
      assert |buffer| >= size;
    }
  }

  /** The blanket `impl DeclarativeWithArgs for T where T: Declarative`: the
      argument is `()` and is ignored. */
  function WithUnit<T>(p: Parser<T>): (q: ParserWith<T, ()>)
    ensures forall buffer :: q(buffer, ()) == p(buffer)
  {
    (buffer: seq<byte>, argument: ()) => p(buffer)
  }

  /** The blanket `impl DynamicEncodingSize for T where T: StaticEncodingSize`:
      the size of any value is the type's `SIZE`. */
  function DynamicSize<T>(t: Decodable<T>, value: T): (size: nat)
    ensures size == t.size
  {
    t.size
  }

  /** The dynamic size of a decoded value is the number of bytes its decode consumed. */
  lemma DynamicSizeIsConsumed<T>(t: Decodable<T>, buffer: seq<byte>)
    requires ExactWidth(t.parse, t.size) && t.parse(buffer).Ok?
    ensures |buffer| - |t.parse(buffer).rest| == DynamicSize(t, t.parse(buffer).value)
  {
    assert t.parse(buffer).rest == buffer[t.size..];
  }
}
