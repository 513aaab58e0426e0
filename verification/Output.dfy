/** The output buffer of one poll call, shared by both machines. */
module Output {
  import opened Words

  class OutputInfo {
    const buf: array<uint8>
    var outputSize: nat
    /** the caller's buffer as it was when the poll began */
    ghost const untouched: seq<uint8>

    constructor (buf: array<uint8>)
      ensures this.buf == buf && Valid() && Written() == [] && untouched == buf[..]
    {
      this.buf := buf;
      this.outputSize := 0;
      this.untouched := buf[..];
    }

    /** Nothing is written past the bytes pushed so far. */
    ghost predicate Valid()
      reads this, buf
    {
      && outputSize <= buf.Length == |untouched|
      && buf[outputSize..] == untouched[outputSize..]
    }

    predicate CanTakeByte()
      reads this
    {
      outputSize < buf.Length
    }

    ghost function Written(): (w: seq<uint8>)
      reads this, buf
      requires Valid()
      ensures |w| == outputSize
    {
      buf[..outputSize]
    }

    method Push(c: uint8)
      requires Valid() && CanTakeByte()
      modifies this`outputSize, buf
      ensures Valid() && outputSize == old(outputSize) + 1
      ensures Written() == old(Written()) + [c]
    {
      buf[outputSize] := c;
      outputSize := outputSize + 1;
    }
  }
}
