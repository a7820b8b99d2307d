/**
 A witness is logically a list of byte strings. It is stored as one byte vector: every item with its
 length in front, one after the other, then an index area of 4-byte offsets, one per item.
 */
module Witnesses {
  import opened Bytes
  import opened Parsing
  import opened Streams
  import opened VarInts
  import opened Limits

  const U32_MAX: nat := 0xFFFF_FFFF

  datatype Fields = Packed(content: bytes, witnessElements: nat, indicesStart: nat)

  /** The index area fills what is after the items, four bytes an item. */
  type Witness = w: Fields | w.indicesStart + 4 * w.witnessElements == |w.content| && w.witnessElements <= USIZE_MAX
    witness Packed([], 0, 0)

  const EMPTY: Witness := Packed([], 0, 0)

  // ---- The abstract list and its one representation

  function Body(xs: seq<bytes>): bytes {
    Flat(VarBytes, xs)
  }

  /** Where item `i` starts: after the items before it. */
  function Offset(xs: seq<bytes>, i: nat): nat
    requires i <= |xs|
  {
    |Body(xs[..i])|
  }

  function Indices(xs: seq<bytes>): (s: bytes)
    ensures |s| == 4 * |xs|
  {
    if xs == [] then []
    else Indices(xs[..|xs| - 1]) + LE(Offset(xs, |xs| - 1), 4)
  }

  /** Every start offset fits the index area, and the whole vector is no longer than an allocation can be. */
  ghost predicate Indexable(xs: seq<bytes>) {
    && (forall i {:trigger Offset(xs, i)} | 0 <= i < |xs| :: Offset(xs, i) <= U32_MAX)
    && |Body(xs)| + 4 * |xs| <= ISIZE_MAX
  }

  function Pack(xs: seq<bytes>): Witness
    requires |xs| <= USIZE_MAX
  {
    Packed(Body(xs) + Indices(xs), |xs|, |Body(xs)|)
  }

  /** The witnesses that `new`, `from_slice` and `decode` build. */
  ghost predicate IsPacked(w: Witness) {
    exists xs: seq<bytes> :: Indexable(xs) && w == Pack(xs)
  }

  lemma {:induction false} BodyNoShorter(xs: seq<bytes>)
    ensures |xs| <= |Body(xs)|
  {
    if xs != [] {
      BodyNoShorter(xs[..|xs| - 1]);
    }
  }

  lemma IndexableLength(xs: seq<bytes>)
    requires Indexable(xs)
    ensures forall i | 0 <= i < |xs| :: IsU64(|xs[i]|)
  {
    forall i | 0 <= i < |xs|
      ensures IsU64(|xs[i]|)
    {
      BodyAt(xs, i);
    }
  }

  lemma IndicesSnoc(xs: seq<bytes>, i: nat)
    requires i < |xs|
    ensures Indices(xs[..i + 1]) == Indices(xs[..i]) + LE(Offset(xs, i), 4)
  {
    assert xs[..i + 1][..i] == xs[..i];
  }

  lemma {:induction false} IndexAt(xs: seq<bytes>, k: nat, i: nat)
    requires i < k <= |xs|
    ensures Indices(xs[..k])[4 * i..4 * i + 4] == LE(Offset(xs, i), 4)
  {
    hide *;
    IndicesSnoc(xs, k - 1);
    var before, last := Indices(xs[..k - 1]), LE(Offset(xs, k - 1), 4);
    if i < k - 1 {
      IndexAt(xs, k - 1, i);
      SliceOfFirst(before, last, 4 * i, 4);
    } else {
      SliceOfSecond(before, last, 0, 4);
    }
  }

  lemma BodyAt(xs: seq<bytes>, i: nat)
    requires i < |xs|
    ensures Offset(xs, i) + |VarBytes(xs[i])| <= |Body(xs)|
    ensures Body(xs)[Offset(xs, i)..] == VarBytes(xs[i]) + Body(xs[i + 1..])
  {
    hide VarBytes, Flat;
    FlatConcat(VarBytes, xs[..i], xs[i..]);
    assert xs[..i] + xs[i..] == xs;
    FlatCons(VarBytes, xs[i..]);
    assert xs[i..][1..] == xs[i + 1..];
  }

  // ---- Encoding

  function WitnessBytes(w: Witness): bytes {
    VarIntBytes(w.witnessElements) + w.content[..|w.content| - 4 * w.witnessElements]
  }

  /** On the wire a packed witness is the counted list of its items: the index area is not sent. */
  lemma WitnessBytesOfPack(xs: seq<bytes>)
    requires |xs| <= USIZE_MAX
    ensures WitnessBytes(Pack(xs)) == Counted(VarBytes, xs)
  {
    var w := Pack(xs);
    assert w.content[..|w.content| - 4 * |xs|] == Body(xs);
  }

  /** The derived equality of the packed form is equality of the lists. */
  lemma PackInjective(xs: seq<bytes>, ys: seq<bytes>)
    requires Indexable(xs) && Indexable(ys)
    ensures Pack(xs) == Pack(ys) <==> xs == ys
  {
    if Pack(xs) == Pack(ys) {
      WitnessBytesOfPack(xs);
      WitnessBytesOfPack(ys);
      IndexableLength(xs);
      IndexableLength(ys);
      VarBytesLawful();
      ReadCountedOf(HasU64Length, VarBytes, ReadVarBytes, xs, []);
      ReadCountedOf(HasU64Length, VarBytes, ReadVarBytes, ys, []);
    }
  }

  method Encode(w: Witness, out: ByteVec) returns (n: nat)
    modifies out
    ensures out.data == old(out.data) + WitnessBytes(w) && n == |WitnessBytes(w)|
  {
    n := EncodeVarInt(w.witnessElements, out);
    var contentWithIndicesLen := |w.content|;
    var indicesSize := w.witnessElements * 4;
    var contentLen := contentWithIndicesLen - indicesSize;
    out.WriteAll(w.content[..contentLen]);
    n := contentLen + Size(w.witnessElements);
    assert out.data == old(out.data) + WitnessBytes(w);
  }

  // ---- The index area

  function DecodeCursor(s: bytes, startOfIndices: nat, index: nat): Option<nat> {
    var start := startOfIndices + index * 4;
    var end := start + 4;
    if end > |s| then None else Some(FromLE(s[start..end]))
  }

  method EncodeCursor(v: ByteVec, startOfIndices: nat, index: nat, value: nat)
    requires value <= U32_MAX
    requires startOfIndices + index * 4 + 4 <= |v.data|
    modifies v
    ensures v.data == Splice(old(v.data), startOfIndices + index * 4, LE(value, 4))
  {
    v.CopyFromSlice(startOfIndices + index * 4, LE(value, 4));
  }

  function Doubled(n: nat, times: nat): nat {
    if times == 0 then n else 2 * Doubled(n, times - 1)
  }

  /** With the bounds, the first doubling of the length that is above the required one, and no other. */
  method ResizeIfNeeded(v: ByteVec, requiredLen: nat)
    requires 2 * requiredLen <= USIZE_MAX
    modifies v
    ensures requiredLen < |v.data|
    ensures exists k :: |v.data| == Doubled(Max(|old(v.data)|, 1), k)
    ensures if requiredLen < |old(v.data)| then |v.data| == |old(v.data)| else |v.data| <= Max(1, 2 * requiredLen)
    ensures |old(v.data)| <= |v.data| && v.data == old(v.data) + Zeros(|v.data| - |old(v.data)|)
  {
    ghost var least, k := Max(|v.data|, 1), 0;
    assert least == Doubled(least, k);
    if requiredLen >= |v.data| {
      var newLen := Max(|v.data|, 1);
      while newLen <= requiredLen
        invariant |v.data| <= newLen && 1 <= newLen <= Max(1, 2 * requiredLen)
        invariant newLen == Doubled(least, k)
        decreases requiredLen - newLen
      {
        newLen, k := newLen * 2, k + 1;
        assert newLen <= USIZE_MAX;
      }
      v.Resize(newLen);
    }
  }

  // ---- Building in one pre-sized buffer

  /** The Rust code panics when a start offset does not fit in 32 bits or the buffer is longer than any allocation. */
  method FromSlice(slice: seq<bytes>) returns (w: Witness)
    requires Indexable(slice)
    ensures w == Pack(slice)
  {
    hide LE, VarIntBytes, Flat, Splice, Indices, Filled;
    IndexableLength(slice);
    var witnessElements := |slice|;
    var indexSize := witnessElements * 4;
    var contentSize := ContentSize(slice);
    var content := new ByteVec(Zeros(contentSize + indexSize));
    var cursor := 0;
    NothingFilled(content.data, slice);
    for i := 0 to |slice|
      invariant cursor == Offset(slice, i)
      invariant Filled(content.data, slice, i)
    {
      var elem := slice[i];
      BodyAt(slice, i);
      VarIntLength(|elem|);
      FillStep(content.data, slice, i);
      FlatSnoc(VarBytes, slice, i);
      EncodeCursor(content, contentSize, i, cursor);
      content.CopyFromSlice(cursor, VarIntBytes(|elem|));
      cursor := cursor + Size(|elem|);
      content.CopyFromSlice(cursor, elem);
      cursor := cursor + |elem|;
    }
    FilledIsPack(content.data, slice);
    w := Packed(content.data, witnessElements, contentSize);
  }

  /** The first `i` items and their offsets are in place. */
  ghost predicate Filled(data: bytes, xs: seq<bytes>, i: nat)
    requires i <= |xs|
  {
    var c := |Body(xs)|;
    && |data| == c + 4 * |xs| && Offset(xs, i) <= c
    && data[..Offset(xs, i)] == Body(xs[..i])
    && data[c..c + 4 * i] == Indices(xs[..i])
  }

  lemma NothingFilled(data: bytes, xs: seq<bytes>)
    requires |data| == |Body(xs)| + 4 * |xs|
    ensures Filled(data, xs, 0) && Offset(xs, 0) == 0
  {
  }

  lemma FillStep(data: bytes, xs: seq<bytes>, i: nat)
    requires i < |xs| && Filled(data, xs, i)
    ensures var (c, at, x) := (|Body(xs)|, Offset(xs, i), xs[i]);
            && at + |VarIntBytes(|x|)| + |x| <= c && c + i * 4 + 4 <= |data|
            && Filled(Splice(Splice(Splice(data, c + i * 4, LE(at, 4)), at, VarIntBytes(|x|)), at + |VarIntBytes(|x|)|, x), xs, i + 1)
  {
    hide LE, VarIntBytes, Flat, Splice, Indices;
    BodyAt(xs, i);
    FlatSnoc(VarBytes, xs, i);
    IndicesSnoc(xs, i);
    var c, at, x, v := |Body(xs)|, Offset(xs, i), xs[i], VarIntBytes(|xs[i]|);
    var d1 := Splice(data, c + i * 4, LE(at, 4));
    SpliceKeeps(data, c + i * 4, LE(at, 4), 0, at);
    SpliceExtends(data, c, c + i * 4, LE(at, 4));
    SpliceTwice(d1, 0, at, v, x, c, c + 4 * i + 4);
  }

  lemma FilledIsPack(data: bytes, xs: seq<bytes>)
    requires |xs| <= USIZE_MAX && Filled(data, xs, |xs|)
    ensures data == Pack(xs).content
  {
    assert xs[..|xs|] == xs;
    assert data == data[..|Body(xs)|] + data[|Body(xs)|..];
  }

  /** `slice.iter().map(..).sum()`, which stays within `usize`. */
  method ContentSize(slice: seq<bytes>) returns (n: nat)
    requires Indexable(slice)
    ensures n == |Body(slice)| && n + 4 * |slice| <= ISIZE_MAX
  {
    hide VarIntBytes, Flat;
    NothingPacked();
    n := 0;
    for i := 0 to |slice|
      invariant n == Offset(slice, i) <= |Body(slice)|
    {
      FlatSnoc(VarBytes, slice, i);
      BodyAt(slice, i);
      VarBytesLength(slice[i]);
      n := n + |slice[i]| + Size(|slice[i]|);
    }
    assert slice[..|slice|] == slice;
  }

  // ---- Decoding: what is accepted

  /** The length of the next item, when the items before it took `used` bytes. */
  function ReadSize(used: nat, s: bytes): Parsed<nat> {
    var (len, r) :- ReadVarInt(s);
    if used + Size(len) + len > MAX_VEC_SIZE then Failed(OversizedVectorAllocation) else Done(len, r)
  }

  function ReadElement(used: nat, s: bytes): Parsed<bytes> {
    var (len, r) :- ReadSize(used, s);
    ReadBytes(r, len)
  }

  function ReadItems(n: nat, used: nat, s: bytes): Parsed<seq<bytes>> {
    if n == 0 then Done([], s)
    else
      var (x, r) :- ReadElement(used, s);
      var (xs, r') :- ReadItems(n - 1, used + |VarBytes(x)|, r);
      Done([x] + xs, r')
  }

  function ReadWitness(s: bytes): Parsed<seq<bytes>> {
    var (n, r) :- ReadVarInt(s);
    if n > MAX_VEC_SIZE then Failed(OversizedVectorAllocation) else ReadItems(n, 0, r)
  }

  lemma ReadItemsStep(n: nat, used: nat, s: bytes)
    requires n > 0
    ensures var head := ReadVarBytes(s);
            var p := ReadItems(n, used, s);
            if head.Done? && used + |VarBytes(head.value)| <= MAX_VEC_SIZE
            then p == After([head.value], ReadItems(n - 1, used + |VarBytes(head.value)|, head.rest))
            else p.Failed?
  {
    hide ReadVarInt, VarIntBytes, Size, ReadItems;
    ReadItemsFirst(n, used, s);
    if ReadVarInt(s).Done? {
      ReadVarIntCanonical(s);
      VarIntLength(ReadVarInt(s).value);
    }
  }

  /** `p` is `q`, cut off where the items, after `used` bytes, pass the limit. */
  ghost predicate CutOff(p: Parsed<seq<bytes>>, q: Parsed<seq<bytes>>, used: nat) {
    if q.Done? && used + |Body(q.value)| <= 4_000_000 then p == q else p.Failed?
  }

  lemma CutOffCons(x: bytes, p: Parsed<seq<bytes>>, q: Parsed<seq<bytes>>, used: nat)
    requires CutOff(p, q, used + |VarBytes(x)|)
    ensures CutOff(After([x], p), After([x], q), used)
  {
    if q.Done? {
      FlatCons(VarBytes, [x] + q.value);
    }
  }

  lemma CutOffAtOnce(x: bytes, p: Parsed<seq<bytes>>, q: Parsed<seq<bytes>>, used: nat)
    requires p.Failed? && used + |VarBytes(x)| > MAX_VEC_SIZE
    ensures CutOff(p, After([x], q), used)
  {
    if q.Done? {
      FlatCons(VarBytes, [x] + q.value);
    }
  }

  lemma CutOffEarly(p: Parsed<seq<bytes>>, q: Parsed<seq<bytes>>, used: nat)
    requires p.Failed? && q.Failed?
    ensures CutOff(p, q, used)
  {
  }

  lemma CutOffNothing(used: nat, s: bytes)
    requires used <= MAX_VEC_SIZE
    ensures CutOff(ReadItems(0, used, s), ReadMany(ReadVarBytes, 0, s), used)
  {
  }

  lemma {:induction false} ReadItemsExact(n: nat, used: nat, s: bytes)
    requires used <= MAX_VEC_SIZE
    ensures CutOff(ReadItems(n, used, s), ReadMany(ReadVarBytes, n, s), used)
  {
    hide *;
    if n == 0 {
      CutOffNothing(used, s);
    } else {
      ReadItemsStep(n, used, s);
      ReadManyStep(ReadVarBytes, n, s);
      var p, q, head := ReadItems(n, used, s), ReadMany(ReadVarBytes, n, s), ReadVarBytes(s);
      if head.Failed? {
        CutOffEarly(p, q, used);
      } else {
        var used' := used + |VarBytes(head.value)|;
        var q' := ReadMany(ReadVarBytes, n - 1, head.rest);
        if used' > MAX_VEC_SIZE {
          CutOffAtOnce(head.value, p, q', used);
        } else {
          ReadItemsExact(n - 1, used', head.rest);
          CutOffCons(head.value, ReadItems(n - 1, used', head.rest), q', used);
        }
      }
    }
  }

  /**
   The decoder accepts exactly the counted lists with minimal lengths and all their data present whose
   items, with their length prefixes, take no more than 4,000,000 bytes.
   */
  lemma ReadWitnessExact(s: bytes)
    ensures CutOff(ReadWitness(s), ReadCounted(ReadVarBytes, s), 0)
  {
    hide ReadVarInt;
    var head := ReadVarInt(s);
    if head.Done? {
      ReadItemsExact(head.value, 0, head.rest);
      var q := ReadMany(ReadVarBytes, head.value, head.rest);
      if q.Done? {
        BodyNoShorter(q.value);
      }
    }
  }

  lemma AcceptedIsIndexable(xs: seq<bytes>)
    requires |Body(xs)| <= 4_000_000
    ensures Indexable(xs) && |xs| <= 4_000_000
  {
    BodyNoShorter(xs);
    forall i | 0 <= i < |xs|
      ensures Offset(xs, i) <= U32_MAX
    {
      BodyAt(xs, i);
    }
  }

  /** The structure that holds the items read. */
  ghost function Packing(p: Parsed<seq<bytes>>): Parsed<Fields> {
    match p
    case Done(xs, rest) => Done(Packed(Body(xs) + Indices(xs), |xs|, |Body(xs)|), rest)
    case Failed(e) => Failed(e)
  }

  /**
   Decoding what `encode` wrote, whatever follows it, gives the very structure `from_slice` builds and leaves
   what follows, when the items take no more than 4,000,000 bytes; it fails for every longer list.
   */
  lemma WitnessRoundTrip(xs: seq<bytes>, t: bytes)
    requires Indexable(xs)
    ensures var p := Packing(ReadWitness(WitnessBytes(Pack(xs)) + t));
            if |Body(xs)| <= 4_000_000 then p == Done(Pack(xs), t) else p.Failed?
  {
    WitnessBytesOfPack(xs);
    VarBytesLawful();
    IndexableLength(xs);
    ReadCountedOf(HasU64Length, VarBytes, ReadVarBytes, xs, t);
    ReadWitnessExact(WitnessBytes(Pack(xs)) + t);
  }

  /** Only canonical bytes are accepted: encoding the result gives back the bytes consumed. */
  lemma WitnessCanonical(s: bytes)
    requires ReadWitness(s).Done?
    ensures var p := ReadWitness(s);
            |p.value| <= USIZE_MAX && IsPacked(Pack(p.value)) && s == WitnessBytes(Pack(p.value)) + p.rest
  {
    ReadWitnessExact(s);
    var p := ReadWitness(s);
    VarBytesLawful();
    ReadCountedCanonical(HasU64Length, VarBytes, ReadVarBytes, s);
    AcceptedIsIndexable(p.value);
    WitnessBytesOfPack(p.value);
  }

  // ---- Decoding: indices at the head, growing, then rotated to the tail

  lemma ReadWitnessStart(s: bytes)
    ensures ReadWitness(s) ==
            match ReadVarInt(s)
            case Failed(e) => Failed(e)
            case Done(n, r) => if n > MAX_VEC_SIZE then Failed(OversizedVectorAllocation) else ReadItems(n, 0, r)
  {
  }

  lemma ReadItemsNone(used: nat, s: bytes)
    ensures ReadItems(0, used, s) == Done([], s)
  {
  }

  lemma ReadItemsFirst(n: nat, used: nat, s: bytes)
    requires n > 0
    ensures ReadItems(n, used, s) ==
            match ReadElement(used, s)
            case Failed(e) => Failed(e)
            case Done(x, r) => After([x], ReadItems(n - 1, used + |VarBytes(x)|, r))
  {
    hide ReadElement, VarBytes;
  }

  /** The length of the next item, refused when the item would pass the limit. */
  method DecodeItemSize(r: Reader, indexSpace: nat, cursor: nat) returns (res: Result<u64>)
    requires r.Valid() && indexSpace <= cursor && indexSpace <= 4 * MAX_VEC_SIZE
    modifies r`pos
    ensures r.Valid() && old(r.pos) <= r.pos
    ensures Agrees(ReadSize(cursor - indexSpace, old(r.Rest())), res, r.Rest())
    ensures res.Success? ==> cursor + res.value + Size(res.value) <= MAX_VEC_SIZE + indexSpace
  {
    hide ReadVarInt, Size;
    var elementSize :- DecodeVarInt(r);
    var sizeLen := Size(elementSize);
    if cursor + elementSize > USIZE_MAX || cursor + elementSize + sizeLen > USIZE_MAX {
      return Failure(OversizedVectorAllocation);
    }
    var requiredLen := cursor + elementSize + sizeLen;
    res := if requiredLen > MAX_VEC_SIZE + indexSpace then Failure(OversizedVectorAllocation) else Success(elementSize);
  }

  /** Records where the item starts, makes room for it and writes its length; the new cursor. */
  method ReserveItem(content: ByteVec, indexSpace: nat, i: nat, cursor: nat, elementSize: u64, ghost items: seq<bytes>)
    returns (at: nat)
    requires i == |items| && 4 * i + 4 <= indexSpace <= 4 * MAX_VEC_SIZE
    requires Gathered(content.data, indexSpace, items) && cursor == indexSpace + |Body(items)| < |content.data|
    requires cursor + elementSize + Size(elementSize) <= MAX_VEC_SIZE + indexSpace
    modifies content
    ensures at == cursor + Size(elementSize) && at + elementSize < |content.data|
    ensures |content.data| <= Max(|old(content.data)|, 2 * (MAX_VEC_SIZE + indexSpace))
    ensures Reserved(content.data, indexSpace, items, elementSize)
  {
    hide LE, VarIntBytes, Splice, Gathered, Reserved, Flat, Indices;
    VarIntLength(elementSize);
    ghost var before := content.data;
    EncodeCursor(content, 0, i, cursor - indexSpace);
    ghost var indexed := |content.data|;
    ResizeIfNeeded(content, cursor + elementSize + Size(elementSize));
    ReserveStep(before, indexSpace, items, Zeros(|content.data| - indexed), elementSize);
    content.CopyFromSlice(cursor, VarIntBytes(elementSize));
    at := cursor + Size(elementSize);
  }

  /** One turn of the loop of `Decode`: `items` are in the buffer, the result is the new cursor. */
  method DecodeItem(r: Reader, content: ByteVec, indexSpace: nat, i: nat, cursor: nat, ghost items: seq<bytes>)
    returns (res: Result<nat>)
    requires r.Valid()
    requires i == |items| && 4 * i + 4 <= indexSpace <= 4 * MAX_VEC_SIZE
    requires Gathered(content.data, indexSpace, items)
    requires cursor == indexSpace + |Body(items)| < |content.data| && |Body(items)| <= MAX_VEC_SIZE
    modifies r`pos, content
    ensures r.Valid() && old(r.pos) <= r.pos
    ensures |content.data| <= Max(|old(content.data)|, 2 * (MAX_VEC_SIZE + indexSpace))
    ensures match ReadElement(|Body(items)|, old(r.Rest()))
            case Failed(e) => res == Failure(e)
            case Done(x, rest) =>
              && res == Success(cursor + |VarBytes(x)|) && r.Rest() == rest
              && |Body(items + [x])| == |Body(items)| + |VarBytes(x)| <= MAX_VEC_SIZE
              && indexSpace + |Body(items + [x])| < |content.data|
              && Gathered(content.data, indexSpace, items + [x])
  {
    hide ReadSize, VarIntBytes, VarBytes, Size, LE, Flat, Indices, Splice, Gathered, Reserved;
    var elementSize :- DecodeItemSize(r, indexSpace, cursor);
    VarIntLength(elementSize);
    var at := ReserveItem(content, indexSpace, i, cursor, elementSize, items);
    var element :- r.ReadExact(elementSize);
    VarBytesLength(element);
    PlaceStep(content.data, indexSpace, items, element);
    content.CopyFromSlice(at, element);
    res := Success(at + elementSize);
  }

  /** `peak` is the largest the buffer has been. */
  method Decode(r: Reader) returns (res: Result<Witness>, ghost peak: nat)
    requires r.Valid()
    modifies r`pos
    ensures r.Valid() && old(r.pos) <= r.pos
    ensures Agrees(Packing(ReadWitness(old(r.Rest()))), res, r.Rest())
    ensures match ReadVarInt(old(r.Rest()))
            case Done(n, _) => peak <= 2 * (4_000_000 + 4 * n)
            case Failed(_) => peak == 0
  {
    hide ReadVarInt, VarBytes, Flat, Indices, Gathered, ReadItems, ReadWitness, ReadElement;
    ReadWitnessStart(r.Rest());
    peak := 0;
    var witnessElements :- DecodeVarInt(r);
    if witnessElements > MAX_VEC_SIZE {
      return Failure(OversizedVectorAllocation), peak;
    }
    if witnessElements == 0 {
      NothingPacked();
      ReadItemsNone(0, r.Rest());
      return Success(EMPTY), peak;
    }
    var indexSpace := witnessElements * 4;
    var cursor := indexSpace;
    var content := new ByteVec(Zeros(cursor + 128));
    peak := |content.data|;
    ghost var all := r.Rest();
    ghost var items: seq<bytes> := [];
    NothingGathered(content.data, indexSpace);
    AfterNone(ReadItems(witnessElements, 0, all));
    for i := 0 to witnessElements
      invariant r.Valid() && fresh(content) && old(r.pos) <= r.pos
      invariant |items| == i && cursor == indexSpace + |Body(items)|
      invariant |Body(items)| <= MAX_VEC_SIZE
      invariant cursor < |content.data| <= peak <= 2 * (MAX_VEC_SIZE + indexSpace)
      invariant Gathered(content.data, indexSpace, items)
      invariant ReadItems(witnessElements, 0, all) ==
                After(items, ReadItems(witnessElements - i, |Body(items)|, r.Rest()))
    {
      ReadItemsFirst(witnessElements - i, |Body(items)|, r.Rest());
      ghost var head := ReadElement(|Body(items)|, r.Rest());
      var next := DecodeItem(r, content, indexSpace, i, cursor, items);
      peak := Max(peak, |content.data|);
      cursor :- next;
      AfterSnoc(items, head.value, ReadItems(witnessElements - i - 1, |Body(items + [head.value])|, r.Rest()));
      items := items + [head.value];
    }
    ReadItemsNone(|Body(items)|, r.Rest());
    AfterAll(items, r.Rest());
    GatheredIsPacked(content.data, indexSpace, items);
    content.Truncate(cursor);
    content.RotateLeft(indexSpace);
    res := Success(Packed(content.data, witnessElements, cursor - indexSpace));
  }

  /** The indices of `items` at the head, the items after the space left for all the indices. */
  ghost predicate Gathered(data: bytes, indexSpace: nat, items: seq<bytes>) {
    && 4 * |items| <= indexSpace && indexSpace + |Body(items)| <= |data|
    && data[..4 * |items|] == Indices(items)
    && data[indexSpace..indexSpace + |Body(items)|] == Body(items)
  }

  lemma NothingPacked()
    ensures IsPacked(EMPTY)
    ensures Body([]) == [] && Indices([]) == []
  {
    assert Body([]) + Indices([]) == [];
    assert Indexable([]) && EMPTY == Pack([]);
  }

  lemma NothingGathered(data: bytes, indexSpace: nat)
    requires indexSpace <= |data|
    ensures Gathered(data, indexSpace, [])
    ensures Body([]) == []
  {
  }

  lemma GatheredIsPacked(data: bytes, indexSpace: nat, items: seq<bytes>)
    requires Gathered(data, indexSpace, items) && indexSpace == 4 * |items|
    ensures var kept := data[..indexSpace + |Body(items)|];
            kept[indexSpace..] + kept[..indexSpace] == Body(items) + Indices(items)
  {
  }

  lemma BodyOfSnoc(items: seq<bytes>, x: bytes)
    ensures Body(items + [x]) == Body(items) + VarBytes(x)
    ensures Indices(items + [x]) == Indices(items) + LE(|Body(items)|, 4)
  {
    assert (items + [x])[..|items|] == items;
  }

  /** As `Gathered`, with the next index and the length of the next item, `n`, in place. */
  ghost predicate Reserved(data: bytes, indexSpace: nat, items: seq<bytes>, n: nat) {
    var at := indexSpace + |Body(items)| + |VarIntBytes(n)|;
    && 4 * |items| + 4 <= indexSpace && at + n <= |data|
    && data[..4 * |items| + 4] == Indices(items) + LE(|Body(items)|, 4)
    && data[indexSpace..at] == Body(items) + VarIntBytes(n)
  }

  lemma ReserveStep(data: bytes, indexSpace: nat, items: seq<bytes>, grown: bytes, n: nat)
    requires 4 * |items| + 4 <= indexSpace && Gathered(data, indexSpace, items)
    requires indexSpace + |Body(items)| + |VarIntBytes(n)| + n <= |data| + |grown|
    ensures var d := Splice(data, 4 * |items|, LE(|Body(items)|, 4)) + grown;
            Reserved(Splice(d, indexSpace + |Body(items)|, VarIntBytes(n)), indexSpace, items, n)
  {
    hide LE, VarIntBytes, Flat, Splice, Indices;
    var k, b, v := 4 * |items|, |Body(items)|, VarIntBytes(n);
    var at := indexSpace + b;
    var d := Splice(data, k, LE(b, 4));
    SpliceKeeps(data, k, LE(b, 4), indexSpace, at);
    SpliceExtends(data, 0, k, LE(b, 4));
    SliceOfFirst(d, grown, 0, k + 4);
    SliceOfFirst(d, grown, indexSpace, b);
    SpliceKeeps(d + grown, at, v, 0, k + 4);
    SpliceExtends(d + grown, indexSpace, at, v);
  }

  lemma PlaceStep(data: bytes, indexSpace: nat, items: seq<bytes>, x: bytes)
    requires Reserved(data, indexSpace, items, |x|)
    ensures var at := indexSpace + |Body(items)| + |VarIntBytes(|x|)|;
            Gathered(Splice(data, at, x), indexSpace, items + [x])
    ensures |Body(items + [x])| == |Body(items)| + |VarBytes(x)|
  {
    hide LE, VarIntBytes, Flat, Splice, Indices;
    BodyOfSnoc(items, x);
    var at := indexSpace + |Body(items)| + |VarIntBytes(|x|)|;
    SpliceKeeps(data, at, x, 0, 4 * |items| + 4);
    SpliceExtends(data, indexSpace, at, x);
    AppendStep(Body(items), VarIntBytes(|x|), x);
  }

  // ---- Iterating

  class Iter {
    const inner: bytes
    const indicesStart: nat
    var currentIndex: nat

    /** Iterating over the packed form of `items`, with `currentIndex` of them handed out. */
    ghost predicate Over(items: seq<bytes>)
      reads this
    {
      && Indexable(items)
      && inner == Pack(items).content && indicesStart == |Body(items)|
      && currentIndex <= |items|
    }

    constructor (w: Witness, ghost items: seq<bytes>)
      requires Indexable(items) && w == Pack(items)
      ensures Over(items) && currentIndex == 0
    {
      inner, indicesStart, currentIndex := w.content, w.indicesStart, 0;
    }

    method Next(ghost items: seq<bytes>) returns (next: Option<bytes>)
      requires Over(items)
      modifies this
      ensures Over(items)
      ensures if old(currentIndex) < |items|
              then next == Some(items[old(currentIndex)]) && currentIndex == old(currentIndex) + 1
              else next == None && currentIndex == old(currentIndex)
    {
      hide ReadVarInt, Size, DecodeCursor, Flat, Indices;
      var cursor := DecodeCursor(inner, indicesStart, currentIndex);
      if currentIndex < |items| {
        ItemAt(items, currentIndex);
      } else {
        NoCursorPastEnd(items);
      }
      if cursor == None {
        return None;
      }
      var index := cursor.value;
      var varint := ReadVarInt(inner[index..]);
      if varint.Failed? {
        return None;
      }
      var start := index + Size(varint.value);
      var end := start + varint.value;
      next := Some(inner[start..end]);
      currentIndex := currentIndex + 1;
    }

    /** The exact number of items still to come. */
    method SizeHint(ghost items: seq<bytes>) returns (remaining: nat)
      requires Over(items)
      ensures remaining == |items| - currentIndex
    {
      var totalCount := (|inner| - indicesStart) / 4;
      remaining := totalCount - currentIndex;
    }
  }

  /** Following offset `i` of the index area leads to item `i`. */
  lemma ItemAt(xs: seq<bytes>, i: nat)
    requires Indexable(xs) && i < |xs|
    ensures var inner := Pack(xs).content;
            var index := Offset(xs, i);
            && DecodeCursor(inner, |Body(xs)|, i) == Some(index)
            && index + Size(|xs[i]|) + |xs[i]| <= |Body(xs)| <= |inner|
            && ReadVarInt(inner[index..]).Done? && ReadVarInt(inner[index..]).value == |xs[i]|
            && inner[index + Size(|xs[i]|)..index + Size(|xs[i]|) + |xs[i]|] == xs[i]
  {
    hide LE, FromLE, Flat, VarIntBytes, ReadVarInt, DecodeCursor;
    var inner, b, index := Pack(xs).content, Body(xs), Offset(xs, i);
    CursorAt(xs, i);
    IndexableLength(xs);
    VarIntLength(|xs[i]|);
    BodyAt(xs, i);
    var n := Size(|xs[i]|);
    var tail := xs[i] + (Body(xs[i + 1..]) + Indices(xs));
    SuffixOfConcat(b, Indices(xs), index);
    assert inner[index..] == VarIntBytes(|xs[i]|) + tail;
    ReadVarIntOf(|xs[i]|, tail);
    SliceOfSuffix(inner, index, n, |xs[i]|);
    assert inner[index..][n..] == tail;
  }

  lemma NoCursorPastEnd(xs: seq<bytes>)
    ensures DecodeCursor(Body(xs) + Indices(xs), |Body(xs)|, |xs|) == None
  {
  }

  lemma {:induction false} CursorAt(xs: seq<bytes>, i: nat)
    requires Indexable(xs) && i < |xs|
    ensures DecodeCursor(Body(xs) + Indices(xs), |Body(xs)|, i) == Some(Offset(xs, i))
  {
    hide LE, FromLE, Flat, Indices;
    var area := Body(xs) + Indices(xs);
    var start := |Body(xs)| + i * 4;
    IndexAt(xs, |xs|, i);
    assert xs[..|xs|] == xs;
    SliceOfSecond(Body(xs), Indices(xs), 4 * i, 4);
    assert area[start..start + 4] == LE(Offset(xs, i), 4);
    FromLEOfU32(Offset(xs, i));
  }

  /** `to_vec`: the iterator hands out the whole list and then stops. */
  method ToVec(w: Witness, ghost items: seq<bytes>) returns (out: seq<bytes>)
    requires Indexable(items) && w == Pack(items)
    ensures out == items
  {
    hide Pack, Indexable, Flat, Indices, Iter.Over;
    var iter := new Iter(w, items);
    out := [];
    var next := iter.Next(items);
    while next.Some?
      invariant iter.Over(items)
      invariant |out| <= |items| && out == items[..|out|]
      invariant if next.Some? then |out| < |items| && next.value == items[|out|] && iter.currentIndex == |out| + 1
                else |out| == |items|
      decreases |items| - |out|
    {
      out := out + [next.value];
      next := iter.Next(items);
    }
  }
}
