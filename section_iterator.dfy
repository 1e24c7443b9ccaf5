/**
 * `SectionIterator`: yields `read()` results until the end of the section,
 * and on the first error skips to the end so that the error is the last
 * element yielded.
 */
module Unbounded {
  import opened Reader

  /**
   * Everything the iterator still yields from cursor position `pos`: the
   * successive read results, up to and including the first error.
   */
  function UnboundedTrace<Item>(decode: nat -> Outcome<Item>, end: nat, pos: nat): (r: seq<Result<Item>>)
    requires pos <= end && Progressive(decode, end)
    ensures r == [] <==> pos == end
    ensures |r| <= end - pos
    ensures forall i :: 0 <= i < |r| - 1 ==> r[i].Ok?
    decreases end - pos
  {
    if pos == end then []
    else
      assert Advances(decode(pos), pos, end);
      match decode(pos)
      case Decoded(item, next) => [Ok(item)] + UnboundedTrace(decode, end, next)
      case Failed(err, _) => [Err(err)]
  }

  /** The cursor position after `k` further pulls from position `pos`. */
  function PosAfter<Item>(decode: nat -> Outcome<Item>, end: nat, pos: nat, k: nat): (p: nat)
    requires pos <= end && Progressive(decode, end)
    ensures pos <= p <= end
    ensures k < |UnboundedTrace(decode, end, pos)| ==> p < end
    ensures k >= |UnboundedTrace(decode, end, pos)| ==> p == end
    decreases k
  {
    if k == 0 || pos == end then pos
    else
      assert Advances(decode(pos), pos, end);
      match decode(pos)
      case Decoded(_, next) => PosAfter(decode, end, next, k - 1)
      case Failed(_, _) => end
  }

  /** Number of successfully decoded items in a sequence of results. */
  function Successes<Item>(s: seq<Result<Item>>): (n: nat)
    ensures n <= |s|
  {
    if s == [] then 0 else (if s[0].Ok? then 1 else 0) + Successes(s[1..])
  }

  /**
   * The `k`-th result is what a read at the position reached after `k` pulls
   * decodes; when that read fails, the iterator has yielded `k` items, then
   * that error, and yields nothing more.
   */
  lemma {:induction false} UnboundedStopsAtFirstError<Item>(decode: nat -> Outcome<Item>, end: nat, pos: nat, k: nat)
    requires pos <= end && Progressive(decode, end)
    requires k < |UnboundedTrace(decode, end, pos)|
    ensures var p := PosAfter(decode, end, pos, k);
            p < end &&
            (UnboundedTrace(decode, end, pos)[k] == match decode(p)
                                                    case Decoded(item, _) => Ok(item)
                                                    case Failed(err, _) => Err(err)) &&
            (decode(p).Failed? ==> |UnboundedTrace(decode, end, pos)| == k + 1)
    decreases k
  {
    if k > 0 {
      assert Advances(decode(pos), pos, end);
      match decode(pos)
      case Decoded(_, next) =>
        UnboundedStopsAtFirstError(decode, end, next, k - 1);
      case Failed(_, _) =>
    }
  }

  /** If only the last element of `s` can be an error, all but at most one element are successes. */
  lemma {:induction false} SuccessesOfErrorLast<Item>(s: seq<Result<Item>>)
    requires forall i :: 0 <= i < |s| - 1 ==> s[i].Ok?
    ensures Successes(s) >= |s| - 1
    ensures Successes(s) == |s| <==> (s == [] || s[|s| - 1].Ok?)
  {
    if s != [] {
      assert forall i :: 0 <= i < |s[1..]| - 1 ==> s[1..][i].Ok? by {
        forall i | 0 <= i < |s[1..]| - 1 ensures s[1..][i].Ok? {
          assert s[1..][i] == s[i + 1];
        }
      }
      SuccessesOfErrorLast(s[1..]);
      if |s| > 1 {
        assert s[1..][|s[1..]| - 1] == s[|s| - 1];
      }
    }
  }

  /** The unbounded iterator over one reader. */
  class SectionIterator<Item> {
    const reader: SectionReader<Item>

    ghost predicate Valid()
      reads this, reader
    {
      reader.Valid()
    }

    /** The results this iterator will yield from now on. */
    ghost function Remaining(): seq<Result<Item>>
      reads this, reader
      requires Valid()
    {
      UnboundedTrace(reader.decode, reader.end, reader.pos)
    }

    /** `SectionIterator::new`: wraps the reader and changes nothing. */
    constructor (reader: SectionReader<Item>)
      requires reader.Valid()
      ensures this.reader == reader && Valid()
      ensures Remaining() == UnboundedTrace(reader.decode, reader.end, reader.pos)
    {
      this.reader := reader;
    }

    /**
     * `next`: nothing at the end of the section; otherwise exactly one read,
     * whose error, if any, moves the reader to the end of the section.
     */
    method Next() returns (r: Option<Result<Item>>)
      requires Valid()
      modifies reader
      ensures Valid()
      ensures old(Remaining()) == if r.None? then [] else [r.value] + Remaining()
      ensures r.None? <==> old(reader.Eof())
      ensures r.None? ==> unchanged(reader)
      ensures r.Some? ==> reader.readCalls == old(reader.readCalls) + 1
      ensures r.Some? ==> match reader.decode(old(reader.pos))
                          case Decoded(item, next) => r.value == Ok(item) && reader.pos == next
                          case Failed(err, _) => r.value == Err(err) && reader.Eof()
      ensures old(reader.pos) <= reader.pos
    {
      if reader.Eof() {
        return None;
      }
      var result := reader.Read();
      if result.Err? {
        reader.SkipToEnd();
      }
      r := Some(result);
    }
  }
}
