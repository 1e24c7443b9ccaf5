/**
 * `SectionIteratorLimited`: yields at most the declared number of items,
 * then checks with `ensure_end` that no bytes are left; any error, from a
 * read or from `ensure_end`, is yielded once and ends the iteration.
 */
module Limited {
  import opened Reader
  import opened Unbounded

  /**
   * Everything the iterator still yields from cursor position `pos` with
   * `left` items still expected.
   */
  function LimitedTrace<Item>(decode: nat -> Outcome<Item>, end: nat, pos: nat, left: nat): (r: seq<Result<Item>>)
    requires pos <= end && Progressive(decode, end)
    ensures r == [] <==> pos == end
    ensures forall i :: 0 <= i < |r| - 1 ==> r[i].Ok?
    decreases end - pos
  {
    if pos == end then []
    else if left == 0 then [Err(TrailingDataError(pos))]
    else
      assert Advances(decode(pos), pos, end);
      match decode(pos)
      case Decoded(item, next) => [Ok(item)] + LimitedTrace(decode, end, next, left - 1)
      case Failed(err, _) => [Err(err)]
  }

  /**
   * The counted iterator is the unbounded one cut off after `left` items:
   * when the section holds no more results than that, both yield the same;
   * otherwise the counted one yields the first `left` items and then one
   * trailing-data error at the position right after the last of them.
   */
  lemma {:induction false} LimitedIsTruncatedUnbounded<Item>(decode: nat -> Outcome<Item>, end: nat, pos: nat, left: nat)
    requires pos <= end && Progressive(decode, end)
    ensures var u := UnboundedTrace(decode, end, pos);
            LimitedTrace(decode, end, pos, left) ==
              if |u| <= left then u
              else u[..left] + [Err(TrailingDataError(PosAfter(decode, end, pos, left)))]
    decreases end - pos
  {
    if pos < end && left > 0 {
      assert Advances(decode(pos), pos, end);
      match decode(pos)
      case Decoded(item, next) =>
        LimitedIsTruncatedUnbounded(decode, end, next, left - 1);
        var u' := UnboundedTrace(decode, end, next);
        if |u'| > left - 1 {
          assert ([Ok(item)] + u')[..left] == [Ok(item)] + u'[..left - 1];
        }
      case Failed(_, _) =>
    }
  }

  /** Over any run, at most `left` items are decoded and at most `left + 1` results are yielded. */
  lemma {:induction false} LimitedYieldBound<Item>(decode: nat -> Outcome<Item>, end: nat, pos: nat, left: nat)
    requires pos <= end && Progressive(decode, end)
    ensures Successes(LimitedTrace(decode, end, pos, left)) <= left
    ensures |LimitedTrace(decode, end, pos, left)| <= left + 1
    decreases end - pos
  {
    if pos < end && left > 0 {
      assert Advances(decode(pos), pos, end);
      match decode(pos)
      case Decoded(item, next) =>
        LimitedYieldBound(decode, end, next, left - 1);
        var t := LimitedTrace(decode, end, next, left - 1);
        assert ([Ok(item)] + t)[1..] == t;
      case Failed(_, _) =>
    }
  }

  /**
   * Exact match: when the section holds exactly `left` items decoding back
   * to back up to its end, they are all yielded and no error is.
   */
  lemma ExactCountYieldsAllItems<Item>(decode: nat -> Outcome<Item>, end: nat, pos: nat, left: nat)
    requires pos <= end && Progressive(decode, end)
    requires |UnboundedTrace(decode, end, pos)| == left
    requires Successes(UnboundedTrace(decode, end, pos)) == left
    ensures LimitedTrace(decode, end, pos, left) == UnboundedTrace(decode, end, pos)
    ensures forall i :: 0 <= i < left ==> LimitedTrace(decode, end, pos, left)[i].Ok?
  {
    var u := UnboundedTrace(decode, end, pos);
    LimitedIsTruncatedUnbounded(decode, end, pos, left);
    SuccessesOfErrorLast(u);
  }

  /**
   * Undercount: when the section ends, with every item decoded, before
   * `left` items were read, the iterator simply stops; the shortfall against
   * the declared count is not reported.
   */
  lemma UndercountEndsWithoutError<Item>(decode: nat -> Outcome<Item>, end: nat, pos: nat, left: nat)
    requires pos <= end && Progressive(decode, end)
    requires |UnboundedTrace(decode, end, pos)| < left
    requires forall i :: 0 <= i < |UnboundedTrace(decode, end, pos)| ==> UnboundedTrace(decode, end, pos)[i].Ok?
    ensures LimitedTrace(decode, end, pos, left) == UnboundedTrace(decode, end, pos)
    ensures forall i :: 0 <= i < |LimitedTrace(decode, end, pos, left)| ==> !LimitedTrace(decode, end, pos, left)[i].Err?
  {
    LimitedIsTruncatedUnbounded(decode, end, pos, left);
  }

  /**
   * Trailing data: when the first `left` reads succeed but bytes remain after
   * them, those `left` items are yielded and then exactly one trailing-data
   * error, located right after the last item.
   */
  lemma TrailingDataReportedOnce<Item>(decode: nat -> Outcome<Item>, end: nat, pos: nat, left: nat)
    requires pos <= end && Progressive(decode, end)
    requires left < |UnboundedTrace(decode, end, pos)|
    ensures var t := LimitedTrace(decode, end, pos, left);
            var p := PosAfter(decode, end, pos, left);
            |t| == left + 1 && p < end &&
            (forall i :: 0 <= i < left ==> t[i] == UnboundedTrace(decode, end, pos)[i] && t[i].Ok?) &&
            t[left] == Err(BinaryReaderError(TrailingDataMessage, p))
  {
    LimitedIsTruncatedUnbounded(decode, end, pos, left);
  }

  /** The counted iterator over one reader. */
  class SectionIteratorLimited<Item> {
    const reader: SectionReader<Item>
    var left: u32

    ghost predicate Valid()
      reads this, reader
    {
      reader.Valid() && left <= reader.count
    }

    /** The results this iterator will yield from now on. */
    ghost function Remaining(): seq<Result<Item>>
      reads this, reader
      requires Valid()
    {
      LimitedTrace(reader.decode, reader.end, reader.pos, left as nat)
    }

    /** `SectionIteratorLimited::new`: `left` starts at the declared count; the reader is untouched. */
    constructor (reader: SectionReader<Item>)
      requires reader.Valid()
      ensures this.reader == reader && Valid()
      ensures left == reader.GetCount()
      ensures Remaining() == LimitedTrace(reader.decode, reader.end, reader.pos, reader.count as nat)
    {
      this.reader := reader;
      this.left := reader.GetCount();
    }

    /**
     * `size_hint`: the declared count as both bounds. It has no reads clause:
     * it depends only on the constant fields `reader` and `count`, so no
     * call of `Next` (no decrement of `left`, no move of the cursor, no
     * error) can change what it returns.
     */
    function SizeHint(): (h: (nat, Option<nat>))
      ensures h.0 == reader.count as nat && h.1 == Some(reader.count as nat)
    {
      var count := reader.GetCount() as nat;
      (count, Some(count))
    }

    /**
     * `next`: nothing at the end of the section; with no items left, the
     * `ensure_end` error once; otherwise exactly one read, after which a
     * success counts one item off and an error ends the iteration.
     */
    method Next() returns (r: Option<Result<Item>>)
      requires Valid()
      modifies this, reader
      ensures Valid()
      ensures old(Remaining()) == if r.None? then [] else [r.value] + Remaining()
      ensures r.None? <==> old(reader.Eof())
      ensures r.None? ==> unchanged(this, reader)
      ensures old(left) == 0 ==> reader.readCalls == old(reader.readCalls)
      ensures old(left) == 0 && r.Some? ==>
                r.value == Err(old(reader.EnsureEnd()).error) && reader.Eof() && left == 0
      ensures old(left) != 0 && r.Some? ==>
                reader.readCalls == old(reader.readCalls) + 1 &&
                match reader.decode(old(reader.pos))
                case Decoded(item, next) => r.value == Ok(item) && reader.pos == next && left == old(left) - 1
                case Failed(err, _) => r.value == Err(err) && reader.Eof() && left == 0
      ensures old(reader.pos) <= reader.pos
    {
      if reader.Eof() {
        return None;
      }
      if left == 0 {
        var check := reader.EnsureEnd();
        match check {
          case Ok(_) =>
            r := None;
          case Err(err) =>
            reader.SkipToEnd();
            r := Some(Err(err));
        }
        return;
      }
      var result := reader.Read();
      if result.Err? {
        reader.SkipToEnd();
        left := 0;
      } else {
        left := left - 1;
      }
      r := Some(result);
    }
  }

  /**
   * A counted iterator created over a reader yields at most the declared
   * count of items and at most one more result, and only its last result
   * can be an error.
   */
  lemma FreshIteratorBounds<Item>(it: SectionIteratorLimited<Item>)
    requires it.Valid() && it.left == it.reader.GetCount()
    ensures Successes(it.Remaining()) <= it.reader.GetCount() as nat
    ensures |it.Remaining()| <= it.reader.GetCount() as nat + 1
    ensures forall i :: 0 <= i < |it.Remaining()| - 1 ==> it.Remaining()[i].Ok?
  {
    LimitedYieldBound(it.reader.decode, it.reader.end, it.reader.pos, it.left as nat);
  }
}
