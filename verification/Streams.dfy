/** The two mutable byte streams of the codecs: a `Vec<u8>` and a buffered reader that `take` can cut off. */
module Streams {
  import opened Bytes
  import opened Parsing

  class ByteVec {
    var data: bytes

    constructor (initial: bytes)
      ensures data == initial
    {
      data := initial;
    }

    /** `write_all` on a vector: always succeeds. */
    method WriteAll(d: bytes)
      modifies this
      ensures data == old(data) + d
    {
      data := data + d;
    }

    /** `self[at..at + d.len()].copy_from_slice(d)`. */
    method CopyFromSlice(at: nat, d: bytes)
      requires at + |d| <= |data|
      modifies this
      ensures data == Splice(old(data), at, d)
    {
      data := Splice(data, at, d);
    }

    /** `self.resize(n, 0)`. */
    method Resize(n: nat)
      modifies this
      ensures data == if n <= |old(data)| then old(data)[..n] else old(data) + Zeros(n - |old(data)|)
    {
      data := if n <= |data| then data[..n] else data + Zeros(n - |data|);
    }

    method Truncate(n: nat)
      requires n <= |data|
      modifies this
      ensures data == old(data)[..n]
    {
      data := data[..n];
    }

    method RotateLeft(mid: nat)
      requires mid <= |data|
      modifies this
      ensures data == old(data)[mid..] + old(data)[..mid]
    {
      data := data[mid..] + data[..mid];
    }
  }

  /** A reader over `data`, at `pos`, that may not read at or past `end`. */
  class Reader {
    const data: bytes
    var pos: nat
    var end: nat

    ghost predicate Valid()
      reads this
    {
      pos <= end <= |data|
    }

    /** What is left to read. */
    ghost function Rest(): bytes
      reads this
      requires Valid()
    {
      data[pos..end]
    }

    constructor (s: bytes)
      ensures Valid() && Rest() == s && data == s
    {
      data := s;
      pos, end := 0, |s|;
    }

    /** `take(limit)`: until `EndTake` is given the old end, only the first `limit` bytes are there. */
    method Take(limit: nat) returns (outer: nat)
      requires Valid()
      modifies this`end
      ensures Valid() && outer == old(end) && end <= outer <= |data|
      ensures var m := Min(limit, |old(Rest())|);
              Rest() == old(Rest())[..m] && data[end..outer] == old(Rest())[m..]
    {
      outer := end;
      end := Min(end, pos + limit);
      SliceSplit(data, pos, end, outer);
    }

    method EndTake(outer: nat)
      requires Valid() && end <= outer <= |data|
      modifies this`end
      ensures Valid() && end == outer
      ensures Rest() == old(Rest()) + data[old(end)..outer]
    {
      SliceJoin(data, pos, end, outer);
      end := outer;
    }

    /** A failed read has consumed what there was; what is still readable is then not promised. */
    method ReadExact(n: nat) returns (res: Result<bytes>)
      requires Valid()
      modifies this`pos
      ensures Valid() && old(pos) <= pos
      ensures Agrees(ReadBytes(old(Rest()), n), res, Rest())
    {
      if end - pos < n {
        pos := end;
        return Failure(UnexpectedEof);
      }
      assert data[pos..end][..n] == data[pos..pos + n] && data[pos..end][n..] == data[pos + n..end];
      res := Success(data[pos..pos + n]);
      pos := pos + n;
    }

    /** The little-endian `read_u8`, `read_u16`, `read_u32` and `read_u64`. */
    method ReadWord(k: nat) returns (res: Result<nat>)
      requires Valid()
      modifies this`pos
      ensures Valid() && old(pos) <= pos
      ensures Agrees(ReadLE(old(Rest()), k), res, Rest())
    {
      var val :- ReadExact(k);
      res := Success(FromLE(val));
    }
  }

  /** A method's result and the bytes it left are what the pure reader says. */
  ghost predicate Agrees<T>(p: Parsed<T>, res: Result<T>, left: bytes) {
    match p
    case Done(x, rest) => res == Success(x) && left == rest
    case Failed(e) => res == Failure(e)
  }
}
