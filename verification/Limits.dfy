/** Reading a byte vector of untrusted length, chunk by chunk, and the 4,000,000-byte limit of the decoders. */
module Limits {
  import opened Bytes
  import opened Parsing
  import opened Streams
  import opened VarInts

  const MAX_VEC_SIZE: nat := 4_000_000

  /** `peak` is the largest the buffer has been. The result does not depend on the chunk size. */
  method ReadBytesFromFiniteReader(r: Reader, len: nat, chunkSize: nat) returns (res: Result<bytes>, ghost peak: nat)
    requires r.Valid() && chunkSize != 0
    modifies r`pos
    ensures r.Valid() && old(r.pos) <= r.pos
    ensures Agrees(ReadBytes(old(r.Rest()), len), res, r.Rest())
    ensures peak <= r.pos - old(r.pos) + chunkSize
  {
    hide Splice, ReadBytes;
    var ret := new ByteVec([]);
    var todo := len;
    peak := 0;
    ghost var all := r.Rest();
    while todo > 0
      invariant r.Valid() && fresh(ret)
      invariant 0 <= todo && |ret.data| + todo == len && |ret.data| <= |all|
      invariant ret.data == all[..|ret.data|] && r.Rest() == all[|ret.data|..]
      invariant r.pos == old(r.pos) + |ret.data|
      invariant peak <= |ret.data| + chunkSize
      decreases todo
    {
      ghost var before := ret.data;
      var chunkStart := |ret.data|;
      var chunk := Min(todo, chunkSize);
      NextChunk(all, chunkStart, chunk, len);
      ret.Resize(chunkStart + chunk);
      peak := Max(peak, |ret.data|);
      var slice :- r.ReadExact(chunk);
      SpliceTail(before, Zeros(chunk), slice);
      ret.CopyFromSlice(chunkStart, slice);
      todo := todo - chunk;
    }
    AllRead(all, len);
    res := Success(ret.data);
  }

  lemma NextChunk(all: bytes, start: nat, chunk: nat, len: nat)
    requires start <= |all| && start + chunk <= len
    ensures match ReadBytes(all[start..], chunk)
            case Done(d, r) =>
              |d| == chunk && start + chunk <= |all| && all[..start] + d == all[..start + chunk] && r == all[start + chunk..]
            case Failed(e) => ReadBytes(all, len) == Failed(e)
  {
    if start + chunk <= |all| {
      assert all[start..][..chunk] == all[start..start + chunk];
      SliceJoin(all, 0, start, start + chunk);
    }
  }

  lemma AllRead(all: bytes, len: nat)
    requires len <= |all|
    ensures ReadBytes(all, len) == Done(all[..len], all[len..])
  {
  }

  /** `Vec<u8>::decode`. */
  method DecodeByteVec(r: Reader) returns (res: Result<bytes>)
    requires r.Valid()
    modifies r`pos
    ensures r.Valid() && old(r.pos) <= r.pos
    ensures Agrees(ReadVarBytes(old(r.Rest())), res, r.Rest())
  {
    var len :- DecodeVarInt(r);
    ghost var peak;
    res, peak := ReadBytesFromFiniteReader(r, len, 128 * 1024);
  }

  // ---- Scripts: inside a transaction input the limit applies to the script alone

  /** `ScriptBuf::decode`: the default method wraps the reader in `take`. */
  function ReadScript(s: bytes): Parsed<bytes> {
    Limited(ReadVarBytes, MAX_VEC_SIZE, s)
  }

  predicate ScriptFits(d: bytes) {
    HasU64Length(d) && |VarBytes(d)| <= 4_000_000
  }

  lemma ScriptLawful()
    ensures Lawful(ScriptFits, VarBytes, ReadScript)
  {
    VarBytesLawful();
    forall d: bytes, t: bytes | ScriptFits(d)
      ensures ReadScript(VarBytes(d) + t) == Done(d, t)
    {
      LimitedAccepts(HasU64Length, VarBytes, ReadVarBytes, MAX_VEC_SIZE, d, t);
    }
    forall s: bytes | ReadScript(s).Done?
      ensures var p := ReadScript(s); ScriptFits(p.value) && s == VarBytes(p.value) + p.rest
    {
      LimitedCanonical(HasU64Length, VarBytes, ReadVarBytes, MAX_VEC_SIZE, s);
    }
  }

  method DecodeScript(r: Reader) returns (res: Result<bytes>)
    requires r.Valid()
    modifies r
    ensures r.Valid() && r.end == old(r.end) && old(r.pos) <= r.pos
    ensures Agrees(ReadScript(old(r.Rest())), res, r.Rest())
  {
    hide ReadVarBytes;
    var outer := r.Take(MAX_VEC_SIZE);
    res := DecodeByteVec(r);
    r.EndTake(outer);
  }
}
