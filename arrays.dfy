/** The sequence views of `array.rs` as values: `Array` (a known number of
    items) and `Slice` (an unknown number), their `parse_with`, `Array::size`,
    and the sequence of results that iterating an `Array` yields. The iterator
    object itself is the class `ArrayIteration.ArrayIter`. */
module Arrays {
  import opened DeclBase

  /** `Array<'buf, Item>`: the captured buffer, the number of items and the
      items' argument. The item type is phantom. */
  datatype Array<A> = Array(buffer: seq<byte>, length: nat, argument: A)

  /** `Slice<'buf, Item>`: the captured buffer and the items' argument. */
  datatype Slice<A> = Slice(buffer: seq<byte>, argument: A)

  /** `Array::parse_with`: captures the buffer, the length `arguments.0` and
      the item argument `arguments.1`. It never fails and consumes nothing:
      the remainder is the input buffer itself. */
  function ParseArray<A>(buffer: seq<byte>, arguments: (nat, A)): (r: DeclResult<Array<A>>)
    ensures r.Ok? && r.rest == buffer
    ensures r.value.buffer == buffer && r.value.length == arguments.0 && r.value.argument == arguments.1
  {
    Ok(Array(buffer, arguments.0, arguments.1), buffer)
  }

  /** `Slice::parse_with`: captures the buffer and the argument, never fails,
      consumes nothing. */
  function ParseSlice<A>(buffer: seq<byte>, argument: A): (r: DeclResult<Slice<A>>)
    ensures r.Ok? && r.rest == buffer
    ensures r.value.buffer == buffer && r.value.argument == argument
  {
    Ok(Slice(buffer, argument), buffer)
  }

  /** `Array::size` (`DynamicEncodingSize`): `Item::SIZE * length`, for an item
      type whose `SIZE` is `itemSize`. */
  function ArraySize<A>(itemSize: nat, arr: Array<A>): (size: nat)
    ensures arr.length == 0 || itemSize == 0 ==> size == 0
    ensures arr.length > 0 ==> size >= itemSize
    ensures itemSize > 0 ==> size >= arr.length
  {
    itemSize * arr.length
  }

  // ---------------------------------------------------------------------------
  // What `ArrayIter::next` yields, as functions of the captured buffer.

  /** The result of one `next` that reaches the decode, at internal buffer `buffer`. */
  function Element<T, A>(item: ParserWith<T, A>, argument: A, buffer: seq<byte>): (r: Result<T>)
    ensures r.Success? <==> item(buffer, argument).Ok?
  {
    match item(buffer, argument)
    case Ok(v, _) => Success(v)
    case Err(e) => Failure(e)
  }

  /** The iterator's internal buffer after `k` decoding calls of `next` from
      `start`: a successful decode advances it to the item's remainder, a failed
      one leaves it where it was. */
  function Position<T, A>(item: ParserWith<T, A>, argument: A, start: seq<byte>, k: nat): seq<byte>
  {
    if k == 0 then start
    else
      var before := Position(item, argument, start, k - 1);
      match item(before, argument)
      case Ok(_, rest) => rest
      case Err(_) => before
  }

  /** The results of the first `n` decoding calls of `next` from `start`. */
  function Yields<T, A>(item: ParserWith<T, A>, argument: A, start: seq<byte>, n: nat): (r: seq<Result<T>>)
    ensures |r| == n
  {
    if n == 0 then []
    else Yields(item, argument, start, n - 1) + [Element(item, argument, Position(item, argument, start, n - 1))]
  }

  /** Result `i` is the decode at the internal buffer reached after `i` calls. */
  lemma {:induction false} YieldsAt<T, A>(item: ParserWith<T, A>, argument: A, start: seq<byte>, n: nat, i: nat)
    requires i < n
    ensures Yields(item, argument, start, n)[i] == Element(item, argument, Position(item, argument, start, i))
  {
    if i < n - 1 {
      YieldsAt(item, argument, start, n - 1, i);
    }
  }

  /** The first `i` items decoded from `start` all succeeded. */
  predicate FirstSucceed<T, A>(item: ParserWith<T, A>, argument: A, start: seq<byte>, i: nat)
  {
    i == 0 ||
    (FirstSucceed(item, argument, start, i - 1) && Element(item, argument, Position(item, argument, start, i - 1)).Success?)
  }

  /** `FirstSucceed` says what it should of the yielded results. */
  lemma {:induction false} FirstSucceedYieldsSuccess<T, A>(item: ParserWith<T, A>, argument: A, start: seq<byte>, n: nat, j: nat)
    requires FirstSucceed(item, argument, start, n) && j < n
    ensures Yields(item, argument, start, n)[j].Success?
  {
    YieldsAt(item, argument, start, n, j);
    if j < n - 1 {
      FirstSucceedYieldsSuccess(item, argument, start, n - 1, j);
      YieldsAt(item, argument, start, n - 1, j);
    }
  }

  lemma MultiplySuccessor(k: nat, size: nat)
    ensures (k + 1) * size == k * size + size
  {
  }

  /** When each successful item consumes exactly `size` bytes and the first `i`
      items succeeded, the internal buffer before item `i` is the captured
      buffer from offset `i * size`. */
  lemma {:induction false} PositionOfExactItems<T, A(!new)>(item: ParserWith<T, A>, argument: A, start: seq<byte>, size: nat, i: nat)
    requires ConsumesExactly(item, size)
    requires FirstSucceed(item, argument, start, i)
    ensures i * size <= |start|
    ensures Position(item, argument, start, i) == start[i * size..]
  {
    if i > 0 {
      PositionOfExactItems(item, argument, start, size, i - 1);
      var before := Position(item, argument, start, i - 1);
      assert Element(item, argument, before).Success?;
      MultiplySuccessor(i - 1, size);
      assert before[size..] == start[i * size..];
    }
  }

  /** Item `i` of an array of exactly-sized items, all of whose earlier items
      succeeded, is the item decoded at offset `i * size` of the captured buffer. */
  lemma ElementAtOffset<T, A(!new)>(item: ParserWith<T, A>, argument: A, start: seq<byte>, size: nat, n: nat, i: nat)
    requires ConsumesExactly(item, size)
    requires i < n && FirstSucceed(item, argument, start, i)
    ensures i * size <= |start|
    ensures Yields(item, argument, start, n)[i] == Element(item, argument, start[i * size..])
  {
    YieldsAt(item, argument, start, n, i);
    PositionOfExactItems(item, argument, start, size, i);
  }

  /** When every item of an array of exactly-sized items succeeds, iterating it
      consumes exactly `Array::size` bytes of the captured buffer. */
  lemma IterationConsumesSize<T, A(!new)>(item: ParserWith<T, A>, arr: Array<A>, size: nat)
    requires ConsumesExactly(item, size)
    requires FirstSucceed(item, arr.argument, arr.buffer, arr.length)
    ensures ArraySize(size, arr) <= |arr.buffer|
    ensures Position(item, arr.argument, arr.buffer, arr.length) == arr.buffer[ArraySize(size, arr)..]
  {
    PositionOfExactItems(item, arr.argument, arr.buffer, size, arr.length);
  }

  /** For items that fail exactly on a buffer shorter than `size` (as every
      primitive does), all `n` items succeed iff the captured buffer holds at
      least `n * size` bytes. */
  lemma {:induction false} AllSucceedIffLongEnough<T, A(!new)>(item: ParserWith<T, A>, argument: A, start: seq<byte>, size: nat, n: nat)
    requires ConsumesExactly(item, size)
    requires forall b {:trigger item(b, argument)} :: item(b, argument).Err? <==> |b| < size
    ensures FirstSucceed(item, argument, start, n) <==> n * size <= |start|
  {
    if n > 0 {
      AllSucceedIffLongEnough(item, argument, start, size, n - 1);
      var m := (n - 1) * size;
      MultiplySuccessor(n - 1, size);
      if FirstSucceed(item, argument, start, n - 1) {
        PositionOfExactItems(item, argument, start, size, n - 1);
        var before := Position(item, argument, start, n - 1);
        assert before == start[m..];
        assert FirstSucceed(item, argument, start, n) == item(before, argument).Ok?;
        assert item(before, argument).Ok? <==> |before| >= size;
        assert FirstSucceed(item, argument, start, n) <==> n * size <= |start|;
      } else {
        assert m > |start|;
        assert !FirstSucceed(item, argument, start, n);
      }
    }
  }
}
