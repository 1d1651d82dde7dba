/** `ArrayIter`, the iterator `Array::into_iter` returns. */
module ArrayIteration {
  import opened DeclBase
  import opened Arrays
  import opened Declarative

  /** `ArrayIter<'buf, Item>`: `item` is `Item::parse_with`; `buffer` is the
      internal cursor that successful decodes move forward; `cursor` counts the
      calls of `next` that reached a decode. The ghost `start` is the array's
      captured buffer and `yielded` the results handed out so far. */
  class ArrayIter<T, A> {
    const item: ParserWith<T, A>
    const buffer: Cursor
    const length: nat
    const argument: A
    var cursor: nat
    ghost const start: seq<byte>
    ghost var yielded: seq<Result<T>>

    /** The iterator has made `cursor` decoding calls from `start`. */
    ghost predicate Valid()
      reads this, buffer
    {
      cursor <= length &&
      buffer.buf == Position(item, argument, start, cursor) &&
      yielded == Yields(item, argument, start, cursor)
    }

    /** `Array::into_iter`: copies the array's buffer, length and argument, with `cursor` 0. */
    constructor (arr: Array<A>, item: ParserWith<T, A>)
      ensures Valid() && fresh(buffer)
      ensures this.item == item && start == arr.buffer && buffer.buf == arr.buffer
      ensures length == arr.length && argument == arr.argument
      ensures cursor == 0 && yielded == []
    {
      this.item := item;
      buffer := new Cursor(arr.buffer);
      length := arr.length;
      argument := arr.argument;
      cursor := 0;
      start := arr.buffer;
      yielded := [];
    }

    /** `Iterator::next`: `None` once `length` items were produced; otherwise one
        more item decoded with a copy of the argument at the internal buffer,
        which moves to the item's remainder only when the decode succeeds. */
    method Next() returns (r: Option<Result<T>>)
      requires Valid()
      modifies this, buffer
      ensures Valid()
      ensures r.None? <==> old(length <= cursor)
      ensures r.None? ==> cursor == old(cursor) && buffer.buf == old(buffer.buf) && yielded == old(yielded)
      ensures r.Some? ==> cursor == old(cursor) + 1 && yielded == old(yielded) + [r.value]
      ensures r.Some? ==> r.value == Element(item, argument, old(buffer.buf))
      ensures r.Some? ==> buffer.buf == (match item(old(buffer.buf), argument)
                                          case Ok(_, rest) => rest
                                          case Err(_) => old(buffer.buf))
    {
      if length <= cursor {
        return None;
      }
      cursor := cursor + 1;
      var dest := buffer.ParseWith(item, argument);
      r := Some(dest);
      yielded := yielded + [dest];
    }
  }

  /** A `for item in array` loop that collects every result: it sees exactly
      `length` results, the ones `Yields` describes, before `next` returns `None`. */
  method Collect<T, A>(arr: Array<A>, item: ParserWith<T, A>) returns (out: seq<Result<T>>)
    ensures |out| == arr.length
    ensures out == Yields(item, arr.argument, arr.buffer, arr.length)
  {
    var it := new ArrayIter(arr, item);
    out := [];
    while true
      invariant it.Valid() && fresh(it.buffer)
      invariant it.item == item && it.start == arr.buffer
      invariant it.length == arr.length && it.argument == arr.argument
      invariant out == it.yielded
      decreases it.length - it.cursor
    {
      var r := it.Next();
      if r.None? {
        break;
      }
      out := out + [r.value];
    }
  }
}
