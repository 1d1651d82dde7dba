/** `Ignored<T>`: a placeholder that skips the bytes of a `T` without decoding them. */
module Skipping {
  import opened DeclBase
  import opened Primitives

  /** The value of an `Ignored<T>`, which carries nothing. */
  datatype Ignored = Ignored

  /** `StaticEncodingSize::SIZE` of `Ignored<T>`: that of `T`. */
  function IgnoredSize<T>(t: Decodable<T>): (size: nat)
    ensures size == t.size
  {
    t.size
  }

  /** `Declarative::parse` of `Ignored<T>`: a buffer shorter than `T`'s `SIZE`
      gives `InsufficientBytes`; otherwise that many bytes are skipped. */
  function ParseIgnored<T>(t: Decodable<T>, buffer: seq<byte>): (r: DeclResult<Ignored>)
    ensures r.Err? <==> |buffer| < t.size
    ensures r.Err? ==> r.error == InsufficientBytes
    ensures r.Ok? ==> r.rest == buffer[t.size..]
  {
    if |buffer| < IgnoredSize(t) then Err(InsufficientBytes)
    else Ok(Ignored, buffer[IgnoredSize(t)..])
  }

  /** `Ignored<T>` honours its own `SIZE`. */
  lemma IgnoredHonoursSize<T>(t: Decodable<T>)
    ensures ExactWidth((buffer: seq<byte>) => ParseIgnored(t, buffer), IgnoredSize(t))
  {
  }

  /** The outcome depends only on the buffer's length and `T`'s `SIZE`: `T`'s
      own decoder is never run, so two types of the same size, or two buffers
      of the same length, give the same outcome up to the remainder's bytes. */
  lemma IgnoredDependsOnlyOnLength<T, U>(t: Decodable<T>, u: Decodable<U>, buffer: seq<byte>, other: seq<byte>)
    requires t.size == u.size && |buffer| == |other|
    ensures ParseIgnored(t, buffer).Ok? <==> ParseIgnored(u, other).Ok?
    ensures ParseIgnored(t, buffer).Ok? ==> |ParseIgnored(t, buffer).rest| == |ParseIgnored(u, other).rest|
    ensures ParseIgnored(t, buffer) == ParseIgnored(u, buffer)
  {
  }

  /** For a primitive `T`, `Ignored<T>` succeeds exactly when `T::parse` does,
      with the same remainder, and fails with the same error. */
  lemma IgnoredPrimitiveAgrees(p: Primitive, buffer: seq<byte>)
    ensures ParseIgnored(PrimitiveType(p), buffer).Ok? <==> ParsePrimitive(p, buffer).Ok?
    ensures ParseIgnored(PrimitiveType(p), buffer).Ok? ==>
      ParseIgnored(PrimitiveType(p), buffer).rest == ParsePrimitive(p, buffer).rest
    ensures ParseIgnored(PrimitiveType(p), buffer).Err? ==>
      ParseIgnored(PrimitiveType(p), buffer).error == ParsePrimitive(p, buffer).error
  {
  }

  /** More generally, for any `T` whose decoder honours its `SIZE`. */
  lemma IgnoredAgreesWithExactWidth<T>(t: Decodable<T>, buffer: seq<byte>)
    requires ExactWidth(t.parse, t.size)
    ensures ParseIgnored(t, buffer).Ok? <==> t.parse(buffer).Ok?
    ensures ParseIgnored(t, buffer).Ok? ==> ParseIgnored(t, buffer).rest == t.parse(buffer).rest
    ensures ParseIgnored(t, buffer).Err? ==> ParseIgnored(t, buffer).error == t.parse(buffer).error
  {
    assert t.parse(buffer) == t.parse(buffer);
  }
}
