/** `impl_tuple!`: tuples of decoders run in order over one cursor. The
    macro's arities 2 and 3 are modelled; the larger ones repeat the pattern. */
module Tuples {
  import opened DeclBase
  import opened Declarative

  /** `Declarative::parse` for `(A, B)`: `A` from the buffer, `B` from what `A`
      left, the first error returned unchanged, the remainder what `B` left. */
  method ParsePair<A, B>(pa: Parser<A>, pb: Parser<B>, buffer: seq<byte>) returns (r: DeclResult<(A, B)>)
    ensures pa(buffer).Err? ==> r == Err(pa(buffer).error)
    ensures pa(buffer).Ok? && pb(pa(buffer).rest).Err? ==> r == Err(pb(pa(buffer).rest).error)
    ensures pa(buffer).Ok? && pb(pa(buffer).rest).Ok? ==>
      r == Ok((pa(buffer).value, pb(pa(buffer).rest).value), pb(pa(buffer).rest).rest)
  {
    var cursor := new Cursor(buffer);
    var a := cursor.Parse(pa);
    if a.Failure? {
      return Err(a.error);
    }
    var b := cursor.Parse(pb);
    if b.Failure? {
      return Err(b.error);
    }
    return Ok((a.value, b.value), cursor.buf);
  }

  /** `Declarative::parse` for `(A, B, C)`, in the same way. */
  method ParseTriple<A, B, C>(pa: Parser<A>, pb: Parser<B>, pc: Parser<C>, buffer: seq<byte>) returns (r: DeclResult<(A, B, C)>)
    ensures pa(buffer).Err? ==> r == Err(pa(buffer).error)
    ensures pa(buffer).Ok? && pb(pa(buffer).rest).Err? ==> r == Err(pb(pa(buffer).rest).error)
    ensures pa(buffer).Ok? && pb(pa(buffer).rest).Ok? && pc(pb(pa(buffer).rest).rest).Err? ==>
      r == Err(pc(pb(pa(buffer).rest).rest).error)
    ensures pa(buffer).Ok? && pb(pa(buffer).rest).Ok? && pc(pb(pa(buffer).rest).rest).Ok? ==>
      r == Ok((pa(buffer).value, pb(pa(buffer).rest).value, pc(pb(pa(buffer).rest).rest).value),
              pc(pb(pa(buffer).rest).rest).rest)
  {
    var cursor := new Cursor(buffer);
    var a := cursor.Parse(pa);
    if a.Failure? {
      return Err(a.error);
    }
    var b := cursor.Parse(pb);
    if b.Failure? {
      return Err(b.error);
    }
    var c := cursor.Parse(pc);
    if c.Failure? {
      return Err(c.error);
    }
    return Ok((a.value, b.value, c.value), cursor.buf);
  }

  /** A pair of decoders that honour their sizes consumes their sum: it fails
      with `InsufficientBytes` exactly on a buffer shorter than `sa + sb`. */
  method ParsePairOfExactWidths<A, B>(pa: Parser<A>, sa: nat, pb: Parser<B>, sb: nat, buffer: seq<byte>) returns (r: DeclResult<(A, B)>)
    requires ExactWidth(pa, sa) && ExactWidth(pb, sb)
    ensures r.Err? <==> |buffer| < sa + sb
    ensures r.Err? ==> r.error == InsufficientBytes
    ensures r.Ok? ==> r.rest == buffer[sa + sb..]
  {
    r := ParsePair(pa, pb, buffer);
    if pa(buffer).Ok? {
      assert pa(buffer).rest == buffer[sa..];
    }
  }
}
