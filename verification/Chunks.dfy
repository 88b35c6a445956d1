/** Fixed-size pieces of a file, and the per-chunk checks of a download. */
module Chunks {
  import opened Options
  import opened ByteKeys
  import opened Powers
  import Hex

  /** Where chunk i starts. */
  function Offset(chunkSize: nat, i: nat): nat {
    MulNonneg(chunkSize, i);
    chunkSize * i
  }

  lemma OffsetNext(chunkSize: nat, i: nat)
    ensures Offset(chunkSize, i + 1) == Offset(chunkSize, i) + chunkSize
    ensures Offset(chunkSize, 0) == 0 && (chunkSize == 0 ==> Offset(chunkSize, i) == 0)
  {
  }

  lemma OffsetMono(chunkSize: nat, i: nat, j: nat)
    requires i <= j
    ensures Offset(chunkSize, i) <= Offset(chunkSize, j)
    ensures i < j ==> Offset(chunkSize, i) + chunkSize <= Offset(chunkSize, j)
  {
    MulMono(chunkSize, i, j);
    if i < j { MulMono(chunkSize, i + 1, j); }
  }

  function Min(a: nat, b: nat): nat {
    if a < b then a else b
  }

  /** The i-th piece of the split of f, cut short by the end of f. */
  function Piece(f: Bytes, chunkSize: nat, i: nat): Bytes {
    f[Min(Offset(chunkSize, i), |f|)..Min(Offset(chunkSize, i) + chunkSize, |f|)]
  }

  /** n pieces cover a file of that size, and the last one is not needed only when empty. */
  predicate Spans(size: nat, chunkSize: nat, n: nat) {
    n > 0 && Offset(chunkSize, n - 1) <= size <= Offset(chunkSize, n)
  }

  /** A file is determined by its pieces. */
  lemma {:induction false} PiecesDetermine(f: Bytes, g: Bytes, chunkSize: nat, n: nat)
    requires forall i :: 0 <= i < n ==> Piece(f, chunkSize, i) == Piece(g, chunkSize, i)
    requires |f| <= Offset(chunkSize, n) && |g| <= Offset(chunkSize, n)
    ensures f == g
  {
    hide Offset;
    SamePrefix(f, g, chunkSize, n);
    assert f[..|f|] == f && g[..|g|] == g;
  }

  lemma {:induction false} SamePrefix(f: Bytes, g: Bytes, chunkSize: nat, n: nat)
    requires forall i :: 0 <= i < n ==> Piece(f, chunkSize, i) == Piece(g, chunkSize, i)
    ensures f[..Min(|f|, Offset(chunkSize, n))] == g[..Min(|g|, Offset(chunkSize, n))]
  {
    hide Offset;
    OffsetNext(chunkSize, 0);
    if n > 0 {
      SamePrefix(f, g, chunkSize, n - 1);
      OffsetNext(chunkSize, n - 1);
      PrefixGrows(f, chunkSize, n - 1);
      PrefixGrows(g, chunkSize, n - 1);
    }
  }

  lemma PrefixGrows(f: Bytes, chunkSize: nat, i: nat)
    ensures f[..Min(|f|, Offset(chunkSize, i) + chunkSize)] ==
              f[..Min(|f|, Offset(chunkSize, i))] + Piece(f, chunkSize, i)
  {
    hide Offset;
  }

  lemma PieceKept(f: Bytes, tail: Bytes, chunkSize: nat, i: nat)
    requires Offset(chunkSize, i) + chunkSize <= |f|
    ensures Piece(f + tail, chunkSize, i) == Piece(f, chunkSize, i)
  {
    hide Offset;
  }

  lemma PieceAdded(f: Bytes, tail: Bytes, chunkSize: nat, i: nat)
    requires Offset(chunkSize, i) == |f| && |tail| <= chunkSize
    ensures Piece(f + tail, chunkSize, i) == tail
  {
    hide Offset;
  }

  datatype ChunkError =
    | NoChunks | NotFetched | HexTooLong | BadHex | AlreadyFull | Oversized | EmptyChunk | WrongLength
    | MissingHash | HashMismatch | SizeMismatch | FileHashMismatch

  /** `decode_chunk_payload`. */
  function DecodeChunk(hex: string, chunkSize: nat, i: nat, total: nat, size: nat, assembled: nat)
    : (r: Result<Bytes, ChunkError>)
    ensures r.Ok? ==> Hex.Decode(hex) == Some(r.value)
    ensures r.Ok? <==>
              var b := Hex.Decode(hex);
              && b.Some? && |b.value| <= chunkSize && assembled + |b.value| <= size
              && (|b.value| == 0 ==> assembled == size) && (i + 1 != total ==> |b.value| == chunkSize)
  {
    if |hex| > 2 * chunkSize then Err(HexTooLong)
    else
      match Hex.Decode(hex)
      case None => Err(BadHex)
      case Some(chunk) =>
        if assembled > size then Err(AlreadyFull)
        else if |chunk| > size - assembled then Err(Oversized)
        else if |chunk| == 0 && size - assembled > 0 then Err(EmptyChunk)
        else if i + 1 != total && |chunk| != chunkSize then Err(WrongLength)
        else Ok(chunk)
  }

  lemma PieceLength(f: Bytes, chunkSize: nat, i: nat, n: nat)
    requires Spans(|f|, chunkSize, n) && i < n
    ensures Offset(chunkSize, i) <= |f| && |Piece(f, chunkSize, i)| <= chunkSize
    ensures Offset(chunkSize, i) + |Piece(f, chunkSize, i)| <= |f|
    ensures i + 1 < n ==> |Piece(f, chunkSize, i)| == chunkSize
    ensures |Piece(f, chunkSize, i)| == 0 ==> Offset(chunkSize, i) == |f|
  {
    hide Offset;
    OffsetMono(chunkSize, i, n - 1);
    OffsetNext(chunkSize, n - 1);
  }

  /** In place, a payload passes every check and gives the piece exactly when it decodes to
      that piece of some file of the declared size. */
  lemma PieceDecodes(f: Bytes, chunkSize: nat, i: nat, n: nat, hex: string)
    requires Spans(|f|, chunkSize, n) && i < n
    ensures DecodeChunk(hex, chunkSize, i, n, |f|, Offset(chunkSize, i)) == Ok(Piece(f, chunkSize, i)) <==>
              Hex.Decode(hex) == Some(Piece(f, chunkSize, i))
  {
    hide Offset, Piece, Spans, Hex.Decode;
    PieceLength(f, chunkSize, i, n);
  }
}
