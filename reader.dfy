/**
 * The `SectionReader` capability: an abstract cursor over one section of a
 * binary container, plus the declared item count of
 * `SectionWithLimitedItems`.
 *
 * A concrete section decoder is not modelled. Its behaviour is captured by
 * `decode`, which gives the outcome of one `read` started at each byte
 * position of the section (the buffer is immutable, so the outcome depends
 * only on where the read starts). The assumptions the trait does not enforce
 * in the type system but the iterators rely on are stated explicitly:
 * `Progressive` (a successful read moves strictly forward and stays inside
 * the section) and `SkipToEnd` establishing `Eof()`.
 */
module Reader {

  /** The error of the decoder: a static message and an absolute byte offset. */
  datatype BinaryReaderError = BinaryReaderError(message: string, offset: nat)

  datatype Result<T> = Ok(value: T) | Err(error: BinaryReaderError)

  datatype Option<T> = None | Some(value: T)

  /** What one `read` started at some position does. */
  datatype Outcome<Item> =
    | Decoded(item: Item, next: nat)                   // success; the cursor moves to `next`
    | Failed(error: BinaryReaderError, stop: nat)      // failure; the cursor is left at `stop`

  /** The unsigned 32-bit counter type of `get_count` and of the iterator's `left`. */
  newtype u32 = x: int | 0 <= x < 0x1_0000_0000

  const TrailingDataMessage: string := "Unexpected data at the end of the section"

  /** The error `ensure_end` reports for bytes left at `offset`. */
  function TrailingDataError(offset: nat): BinaryReaderError
  {
    BinaryReaderError(TrailingDataMessage, offset)
  }

  /** One read started at `p` stays inside the section and, on success, makes progress. */
  predicate Advances<Item>(o: Outcome<Item>, p: nat, end: nat)
  {
    match o
    case Decoded(_, next) => p < next <= end
    case Failed(_, stop) => p <= stop <= end
  }

  /**
   * The trait assumption on `read`, at every position before the end of the
   * section. Without it a reader whose successful read does not advance would
   * make the unbounded iterator yield forever; the counted one would still
   * stop through its counter.
   */
  predicate Progressive<Item>(decode: nat -> Outcome<Item>, end: nat)
  {
    forall p: nat :: p < end ==> Advances(decode(p), p, end)
  }

  /** A reader over the section bytes `[pos, end)` declaring `count` items. */
  class SectionReader<Item> {
    var pos: nat
    const end: nat
    const decode: nat -> Outcome<Item>
    const count: u32
    /** How many times `Read` has been called, so callers can state how often they read. */
    ghost var readCalls: nat

    ghost predicate Valid()
      reads this
    {
      pos <= end && Progressive(decode, end)
    }

    constructor (start: nat, end: nat, decode: nat -> Outcome<Item>, count: u32)
      requires start <= end && Progressive(decode, end)
      ensures Valid()
      ensures pos == start && this.end == end && this.decode == decode && this.count == count
      ensures readCalls == 0
    {
      this.pos := start;
      this.end := end;
      this.decode := decode;
      this.count := count;
      this.readCalls := 0;
    }

    /** `eof`: the cursor has reached the end of the section. */
    predicate Eof()
      reads this
      ensures Eof() <==> OriginalPosition() == end
    {
      pos == end
    }

    /** `original_position`: the offset of the next undecoded byte. */
    function OriginalPosition(): (p: nat)
      reads this
      ensures Valid() ==> p <= end
    {
      pos
    }

    /**
     * `get_count`: the item count declared in the section header. It is fixed
     * for the reader's lifetime because `count` is a constant field, which is
     * also why this function needs no reads clause.
     */
    function GetCount(): (n: u32)
      ensures n == count
    {
      count
    }

    /** The default `ensure_end`: success exactly at the end, else a trailing-data error at the cursor. */
    function EnsureEnd(): (r: Result<()>)
      reads this
      ensures r.Ok? <==> Eof()
      ensures r.Err? ==> r.error.message == TrailingDataMessage && r.error.offset == OriginalPosition()
    {
      if Eof() then Ok(()) else Err(TrailingDataError(OriginalPosition()))
    }

    /** `read`: decode one item at the cursor. Not to be called at the end of the section. */
    method Read() returns (r: Result<Item>)
      requires Valid() && !Eof()
      modifies this
      ensures Valid()
      ensures readCalls == old(readCalls) + 1
      ensures match decode(old(pos))
              case Decoded(item, next) => r == Ok(item) && pos == next
              case Failed(err, stop) => r == Err(err) && pos == stop
      ensures r.Ok? ==> old(pos) < pos
    {
      assert Advances(decode(pos), pos, end);
      readCalls := readCalls + 1;
      match decode(pos)
      case Decoded(item, next) =>
        r := Ok(item);
        pos := next;
      case Failed(err, stop) =>
        r := Err(err);
        pos := stop;
    }

    /** `skip_to_end`: move the cursor to the end of the section; idempotent. */
    method SkipToEnd()
      requires Valid()
      modifies this`pos
      ensures Valid() && Eof()
      ensures old(Eof()) ==> pos == old(pos)
    {
      pos := end;
    }
  }
}
