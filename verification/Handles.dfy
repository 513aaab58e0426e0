/** The buffered file handles of the command-line program. A read from the operating system
    returns any positive number of bytes up to the room it is given, and none only at the end
    of the file; a write takes every byte. */
module Handles {
  import opened Words

  class ReadHandle {
    const buf: array<uint8>
    var rest: seq<uint8>    // bytes of the file not yet read into the buffer
    var closed: bool
    var fill: nat
    var start: nat          // the field `read` of the C struct
    /** how many reads have found nothing */
    ghost var emptyReads: nat

    constructor (file: seq<uint8>, size: nat)
      ensures Valid() && Contents() == file && buf.Length == size && emptyReads == 0
      ensures fresh(buf)
    {
      buf := new uint8[size](_ => 0);
      rest, closed, fill, start, emptyReads := file, false, 0, 0, 0;
    }

    ghost predicate Valid()
      reads this
    {
      && start <= fill <= buf.Length
      && (closed ==> rest == [])
    }

    /** The bytes of the file not yet dropped. */
    ghost function Contents(): (bytes: seq<uint8>)
      reads this, buf
      requires Valid()
    {
      buf[start..fill] + rest
    }

    /** A read from the operating system into the room behind `fill`. */
    method ReadFile() returns (n: nat)
      requires Valid() && !closed && start == 0 && fill < buf.Length
      modifies this`rest, this`fill, buf
      ensures Valid() && Contents() == old(Contents())
      ensures fill == old(fill) + n
      ensures n == 0 <==> old(rest) == []
    {
      if rest == [] {
        return 0;
      }
      var room := buf.Length - fill;
      n :| 1 <= n <= room && n <= |rest|;
      ghost var was := buf[..fill];
      forall i | 0 <= i < n {
        buf[fill + i] := rest[i];
      }
      assert buf[..fill] == was;
      assert buf[..fill + n] == was + rest[..n];
      assert rest == rest[..n] + rest[n..];
      fill := fill + n;
      rest := rest[n..];
    }

    /** Look at up to `size` of the next bytes; nothing only at the end of the file. */
    method Read(size: nat) returns (ok: bool, bytes: seq<uint8>)
      requires Valid()
      modifies this`rest, this`closed, this`fill, this`start, this`emptyReads, buf
      ensures Valid() && Contents() == old(Contents())
      ensures ok <==> size <= buf.Length
      ensures !ok ==> bytes == []
      ensures ok ==> bytes <= Contents() && |bytes| <= size && |bytes| <= fill - start
      ensures ok ==> |bytes| == size || |bytes| == fill - start
      ensures ok && size > 0 && bytes == [] ==> Contents() == []
      ensures emptyReads == old(emptyReads) + if ok && bytes == [] then 1 else 0
    {
      if size > buf.Length {
        return false, [];
      }
      var rem := fill - start;
      if rem >= size {
        bytes := buf[start..start + size];
        CountEmpty(bytes);
        return true, bytes;
      }
      if closed {
        bytes := buf[start..fill];
        CountEmpty(bytes);
        return true, bytes;
      }
      Compact();
      var n := ReadFile();
      if n == 0 {
        closed := true;
      }
      bytes := if fill > size then buf[..size] else buf[..fill];
      CountEmpty(bytes);
      ok := true;
    }

    ghost method CountEmpty(bytes: seq<uint8>)
      modifies this`emptyReads
      ensures emptyReads == old(emptyReads) + if bytes == [] then 1 else 0
    {
      if bytes == [] {
        emptyReads := emptyReads + 1;
      }
    }

    /** Move the unread bytes to the front of the buffer. */
    method Compact()
      requires Valid()
      modifies this`fill, this`start, buf
      ensures Valid() && Contents() == old(Contents())
      ensures start == 0 && fill == old(fill - start)
    {
      ghost var was := buf[start..fill];
      forall i | 0 <= i < fill - start {
        buf[i] := buf[start + i];
      }
      fill := fill - start;
      start := 0;
      assert buf[..fill] == was;
    }

    /** Give up the oldest `size` bytes of the buffer. */
    method Drop(size: nat) returns (ok: bool)
      requires Valid()
      modifies this`fill, this`start
      ensures Valid()
      ensures ok <==> size <= old(fill - start)
      ensures if ok then size <= |old(Contents())| && Contents() == old(Contents())[size..] else unchanged(this)
    {
      if start + size > fill {
        return false;
      }
      ghost var was := Contents();
      start := start + size;
      assert buf[start..fill] == was[size..fill - (start - size)];
      assert Contents() == was[size..];
      if start == fill {
        start, fill := 0, 0;
      }
      ok := true;
    }
  }

  class WriteHandle {
    const buf: array<uint8>
    var file: seq<uint8>    // bytes written to the file
    var closed: bool
    var fill: nat

    constructor (size: nat)
      ensures Valid() && Contents() == [] && buf.Length == size && !closed && fresh(buf)
    {
      buf := new uint8[size](_ => 0);
      file, closed, fill := [], false, 0;
    }

    ghost predicate Valid()
      reads this
    {
      fill <= buf.Length
    }

    /** What the file holds or will hold once the handle is closed. */
    ghost function Contents(): (bytes: seq<uint8>)
      reads this, buf
      requires Valid()
    {
      if closed then file else file + buf[..fill]
    }

    /** Take over `size` bytes of output, flushing the buffer first if they do not fit. */
    method Sink(input: array<uint8>, size: nat) returns (ok: bool)
      requires Valid() && !closed && size <= input.Length && input != buf
      modifies this`file, this`fill, buf
      ensures Valid()
      ensures ok <==> size <= buf.Length
      ensures if ok then Contents() == old(Contents()) + input[..size] else unchanged(this) && unchanged(buf)
    {
      if size > buf.Length {
        return false;
      }
      ghost var was := Contents();
      if fill + size > buf.Length {
        file := file + buf[..fill];
        fill := 0;
      }
      assert Contents() == was;
      ghost var held := buf[..fill];
      forall i | 0 <= i < size {
        buf[fill + i] := input[i];
      }
      assert buf[..fill + size] == held + input[..size];
      fill := fill + size;
      ok := true;
    }

    /** Flush and close. */
    method Close()
      requires Valid()
      modifies this`file, this`closed
      ensures Valid() && closed && file == Contents() == old(Contents())
    {
      if !closed {
        file := file + buf[..fill];
        closed := true;
      }
    }
  }
}
