/**
 * The forward-only byte reader the parser pulls a font file through, and the
 * ways a parse can fail.
 */
module Stream {
  import opened Bytes

  /** Why the parse of one font file stopped. */
  datatype ParseError =
    | EndOfStream                         // fewer bytes left than a read or skip needs
    | UnsupportedSignature(tag: seq<byte>) // the first four bytes name no known format
    | UnsupportedFontType                 // a recognised format the parser refuses (WOFF)
    | MissingNameTable                    // the directory lists no `name` table
    | BackwardSkip                        // a table starts before the cursor

  datatype Option<+T> = None | Some(value: T)

  datatype Result<+T> = Ok(value: T) | Err(error: ParseError) {
    predicate IsFailure() { Err? }

    function PropagateFailure<U>(): Result<U>
      requires Err?
    {
      Err(error)
    }

    function Extract(): T
      requires Ok?
    {
      value
    }
  }

  /** The outcome of an operation that yields no value. */
  datatype Outcome = Pass | Fail(error: ParseError) {
    predicate IsFailure() { Fail? }

    function PropagateFailure<U>(): Result<U>
      requires Fail?
    {
      Err(error)
    }
  }

  /**
   * A reader over the whole file. `pos` is the number of bytes consumed so
   * far, that is the absolute file offset of the next byte; it never moves
   * backwards.
   */
  class Cursor {
    const data: seq<byte>
    var pos: nat

    constructor (data: seq<byte>)
      ensures this.data == data && pos == 0
    {
      this.data := data;
      pos := 0;
    }

    /** Returns exactly the next `n` bytes, or fails when fewer are left. */
    method Read(n: nat) returns (r: Result<seq<byte>>)
      modifies this
      ensures r.Ok? <==> old(pos) + n <= |data|
      ensures r.Ok? ==> r.value == data[old(pos)..old(pos) + n] && pos == old(pos) + n
      ensures r.Err? ==> r.error == EndOfStream && pos == old(pos)
    {
      if pos + n <= |data| {
        r := Ok(data[pos..pos + n]);
        pos := pos + n;
      } else {
        r := Err(EndOfStream);
      }
    }

    /** Discards the next `n` bytes, or fails when fewer are left. */
    method Skip(n: nat) returns (r: Outcome)
      modifies this
      ensures r.Pass? <==> old(pos) + n <= |data|
      ensures r.Pass? ==> pos == old(pos) + n
      ensures r.Fail? ==> r.error == EndOfStream && pos == old(pos)
    {
      if pos + n <= |data| {
        r := Pass;
        pos := pos + n;
      } else {
        r := Fail(EndOfStream);
      }
    }
  }
}
