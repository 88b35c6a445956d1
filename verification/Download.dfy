/** Chunked downloads: fetching, checking and assembling. */
module Download {
  import opened Options
  import opened ByteKeys
  import opened Chunks
  import Hex
  import Powers

  /** What asking a source for a chunk comes to. */
  datatype Answer = Blocked | Failed | Chunk(index: nat, total: nat, fileSize: nat, hex: string)

  /** The source asked and the chunk index give the answer. */
  type Answers = (nat, nat) -> Answer

  /** The part of a manifest that describes one file. */
  datatype File = File(size: nat, chunkSize: nat, hashes: seq<Bytes>, hash: Bytes)

  predicate Matches(a: Answer, i: nat, total: nat, size: nat) {
    a.Chunk? && a.index == i && a.total == total && a.fileSize == size
  }

  /** The source asked at a turn for chunk i. */
  function Turn(sources: nat, i: nat, turn: nat): (s: nat)
    requires turn < sources
    ensures s < sources
  {
    (i + turn) % sources
  }

  /** The first matching payload for chunk i, starting with source i modulo their number
      and going round from the given turn. */
  function Payload(sources: nat, answers: Answers, i: nat, total: nat, size: nat, turn: nat): Option<string>
    requires turn <= sources
    decreases sources - turn
  {
    if turn == sources then None
    else
      var a := answers(Turn(sources, i, turn), i);
      if Matches(a, i, total, size) then Some(a.hex) else Payload(sources, answers, i, total, size, turn + 1)
  }

  /** The payload is that of the first matching turn. */
  lemma {:induction false} PayloadAt(sources: nat, answers: Answers, i: nat, total: nat, size: nat, turn: nat,
                                     first: nat)
    requires turn <= first < sources && Matches(answers(Turn(sources, i, first), i), i, total, size)
    requires forall t :: turn <= t < first ==> !Matches(answers(Turn(sources, i, t), i), i, total, size)
    ensures Payload(sources, answers, i, total, size, turn) == Some(answers(Turn(sources, i, first), i).hex)
    decreases first - turn
  {
    hide Turn;
    if turn < first { PayloadAt(sources, answers, i, total, size, turn + 1, first); }
  }

  /** There is one if any source matches, and it is a matching source's. */
  lemma PayloadOfSource(sources: nat, answers: Answers, i: nat, total: nat, size: nat, s: nat) returns (source: nat)
    requires s < sources && Matches(answers(s, i), i, total, size)
    ensures source < sources && Matches(answers(source, i), i, total, size)
    ensures Payload(sources, answers, i, total, size, 0) == Some(answers(source, i).hex)
  {
    hide Turn, Matches;
    var last := TurnOf(sources, i, s);
    var t := 0;
    while !Matches(answers(Turn(sources, i, t), i), i, total, size)
      invariant 0 <= t <= last
      invariant forall x :: 0 <= x < t ==> !Matches(answers(Turn(sources, i, x), i), i, total, size)
      decreases last - t
    {
      t := t + 1;
    }
    PayloadAt(sources, answers, i, total, size, 0, t);
    source := Turn(sources, i, t);
  }

  /** `fetch_snapshot_chunk_from_sources`: no source is left out, and the first match wins. */
  method FetchChunk(sources: nat, answers: Answers, i: nat, total: nat, size: nat) returns (r: Option<string>)
    ensures r == Payload(sources, answers, i, total, size, 0)
    ensures r.None? <==> forall s, hex :: 0 <= s < sources ==> answers(s, i) != Chunk(i, total, size, hex)
    ensures r.Some? ==> exists s :: 0 <= s < sources && answers(s, i) == Chunk(i, total, size, r.value)
  {
    hide Turn;
    for turn := 0 to sources
      invariant Payload(sources, answers, i, total, size, 0) == Payload(sources, answers, i, total, size, turn)
      invariant forall t :: 0 <= t < turn ==> !Matches(answers(Turn(sources, i, t), i), i, total, size)
    {
      var a := answers(Turn(sources, i, turn), i);
      if Matches(a, i, total, size) {
        assert a == Chunk(i, total, size, a.hex);
        return Some(a.hex);
      }
    }
    r := None;
    forall s | 0 <= s < sources ensures !Matches(answers(s, i), i, total, size) {
      var t := TurnOf(sources, i, s);
    }
    forall s, hex | 0 <= s < sources ensures answers(s, i) != Chunk(i, total, size, hex) {
      assert Matches(Chunk(i, total, size, hex), i, total, size);
    }
  }

  /** The rotation begins with source i modulo their number and goes round one by one. */
  lemma TurnsGoRound(sources: nat, i: nat, t: nat)
    requires t < sources
    ensures Turn(sources, i, 0) == i % sources
    ensures t + 1 < sources ==>
              Turn(sources, i, t + 1) == if Turn(sources, i, t) + 1 == sources then 0 else Turn(sources, i, t) + 1
  {
    var q, s := (i + t) / sources, (i + t) % sources;
    assert i + t == sources * q + s;
    if s + 1 == sources {
      assert i + t + 1 == sources * (q + 1) + 0;
      Powers.DivModUnique(i + t + 1, sources, q + 1, 0);
    } else {
      Powers.DivModUnique(i + t + 1, sources, q, s + 1);
    }
  }

  /** Every source has its turn. */
  lemma TurnOf(sources: nat, i: nat, s: nat) returns (t: nat)
    requires s < sources
    ensures t < sources && Turn(sources, i, t) == s
  {
    var q, m := i / sources, i % sources;
    t := if s >= m then s - m else s - m + sources;
    var wraps := if s >= m then q else q + 1;
    assert i + t == sources * wraps + s by { assert i == sources * q + m; }
    Powers.DivModUnique(i + t, sources, wraps, s);
  }

  /** Chunk i of f is what the sources deliver and what the manifest expects. */
  ghost predicate Delivered(file: File, sources: nat, answers: Answers, total: nat, chunkHash: Hex.Hash, f: Bytes,
                            i: nat) {
    && i < |file.hashes| && chunkHash(Piece(f, file.chunkSize, i)) == file.hashes[i]
    && Payload(sources, answers, i, total, file.size, 0).Some?
    && Hex.Decode(Payload(sources, answers, i, total, file.size, 0).value) == Some(Piece(f, file.chunkSize, i))
  }

  /** f is a whole download: it has the declared size, every chunk of it was delivered
      in its place, and the whole has the declared hash. */
  ghost predicate Complete(file: File, sources: nat, answers: Answers, total: nat, chunkHash: Hex.Hash,
                           wholeHash: Hex.Hash, f: Bytes) {
    && |f| == file.size && Spans(file.size, file.chunkSize, total)
    && (forall i :: 0 <= i < total ==> Delivered(file, sources, answers, total, chunkHash, f, i))
    && wholeHash(f) == file.hash
  }

  /** The first i chunks are in place. */
  ghost predicate Placed(file: File, sources: nat, answers: Answers, total: nat, chunkHash: Hex.Hash, f: Bytes,
                         i: nat) {
    && i <= total && |f| <= file.size
    && (i < total ==> |f| == Offset(file.chunkSize, i))
    && (i == total ==> Spans(|f|, file.chunkSize, total))
    && forall j :: 0 <= j < i ==> Delivered(file, sources, answers, total, chunkHash, f, j)
  }

  lemma PlaceChunk(file: File, sources: nat, answers: Answers, total: nat, chunkHash: Hex.Hash, f: Bytes, i: nat,
                   chunk: Bytes)
    requires Placed(file, sources, answers, total, chunkHash, f, i) && i < total
    requires Payload(sources, answers, i, total, file.size, 0).Some?
    requires var hex := Payload(sources, answers, i, total, file.size, 0).value;
             DecodeChunk(hex, file.chunkSize, i, total, file.size, |f|) == Ok(chunk)
    requires i < |file.hashes| && chunkHash(chunk) == file.hashes[i]
    ensures Placed(file, sources, answers, total, chunkHash, f + chunk, i + 1)
  {
    hide Offset, Piece, Payload, Hex.Decode;
    OffsetNext(file.chunkSize, i);
    PieceAdded(f, chunk, file.chunkSize, i);
    forall j | 0 <= j < i ensures Delivered(file, sources, answers, total, chunkHash, f + chunk, j) {
      assert Delivered(file, sources, answers, total, chunkHash, f, j);
      OffsetMono(file.chunkSize, j, i);
      PieceKept(f, chunk, file.chunkSize, j);
    }
  }

  /** If some f is complete, the next chunk passes every check. */
  lemma NextAccepted(file: File, sources: nat, answers: Answers, total: nat, chunkHash: Hex.Hash, wholeHash: Hex.Hash,
                     f: Bytes, i: nat)
    requires Complete(file, sources, answers, total, chunkHash, wholeHash, f) && i < total
    ensures Payload(sources, answers, i, total, file.size, 0).Some? && i < |file.hashes|
    ensures chunkHash(Piece(f, file.chunkSize, i)) == file.hashes[i]
    ensures var hex := Payload(sources, answers, i, total, file.size, 0).value;
            var at := Offset(file.chunkSize, i);
            DecodeChunk(hex, file.chunkSize, i, total, file.size, at) == Ok(Piece(f, file.chunkSize, i))
  {
    hide Offset, Piece, Payload, Hex.Decode, DecodeChunk, Spans;
    assert Delivered(file, sources, answers, total, chunkHash, f, i);
    PieceDecodes(f, file.chunkSize, i, total, Payload(sources, answers, i, total, file.size, 0).value);
  }

  /** Once all chunks are in place, only the assembled file can be complete. */
  lemma AllPlaced(file: File, sources: nat, answers: Answers, total: nat, chunkHash: Hex.Hash, wholeHash: Hex.Hash,
                  g: Bytes, f: Bytes)
    requires Placed(file, sources, answers, total, chunkHash, g, total)
    requires Complete(file, sources, answers, total, chunkHash, wholeHash, f)
    ensures f == g
  {
    hide Offset, Piece, Payload, Hex.Decode;
    forall i | 0 <= i < total ensures Piece(f, file.chunkSize, i) == Piece(g, file.chunkSize, i) {
      assert Delivered(file, sources, answers, total, chunkHash, f, i);
      assert Delivered(file, sources, answers, total, chunkHash, g, i);
    }
    PiecesDetermine(f, g, file.chunkSize, total);
  }

  lemma CompleteUnique(file: File, sources: nat, answers: Answers, total: nat, chunkHash: Hex.Hash,
                       wholeHash: Hex.Hash, f: Bytes, g: Bytes)
    requires Complete(file, sources, answers, total, chunkHash, wholeHash, f)
    requires Complete(file, sources, answers, total, chunkHash, wholeHash, g)
    ensures f == g
  {
    hide Delivered;
    assert Placed(file, sources, answers, total, chunkHash, g, total);
    AllPlaced(file, sources, answers, total, chunkHash, wholeHash, g, f);
  }

  /** In a complete download the delivered chunk i stands at offset i times the chunk size,
      and the chunks leave no gap. */
  lemma ChunkAtOffset(file: File, sources: nat, answers: Answers, total: nat, chunkHash: Hex.Hash,
                      wholeHash: Hex.Hash, f: Bytes, i: nat)
    requires Complete(file, sources, answers, total, chunkHash, wholeHash, f) && i < total
    ensures Payload(sources, answers, i, total, file.size, 0).Some?
    ensures var chunk := Hex.Decode(Payload(sources, answers, i, total, file.size, 0).value);
            && chunk.Some? && file.chunkSize * i + |chunk.value| <= |f| == file.size
            && f[file.chunkSize * i..file.chunkSize * i + |chunk.value|] == chunk.value
            && (if i + 1 < total then |chunk.value| == file.chunkSize else file.chunkSize * i + |chunk.value| == |f|)
  {
    hide Payload, Hex.Decode;
    assert Delivered(file, sources, answers, total, chunkHash, f, i);
    PieceLength(f, file.chunkSize, i, total);
    OffsetNext(file.chunkSize, i);
    assert file.chunkSize * i == Offset(file.chunkSize, i);
    hide Offset;
  }

  /** The download loop. It ends with f exactly when f is complete. */
  method Assemble(file: File, sources: nat, answers: Answers, total: nat, chunkHash: Hex.Hash, wholeHash: Hex.Hash)
    returns (r: Result<Bytes, ChunkError>)
    requires total > 0
    ensures forall f :: r == Ok(f) <==> Complete(file, sources, answers, total, chunkHash, wholeHash, f)
  {
    hide Offset, Piece, Payload, Hex.Decode, DecodeChunk, Complete, Delivered, Matches;
    var written := [];
    OffsetNext(file.chunkSize, 0);
    for i := 0 to total
      invariant Placed(file, sources, answers, total, chunkHash, written, i)
    {
      forall f | Complete(file, sources, answers, total, chunkHash, wholeHash, f)
        ensures Payload(sources, answers, i, total, file.size, 0).Some? && i < |file.hashes|
        ensures chunkHash(Piece(f, file.chunkSize, i)) == file.hashes[i]
        ensures var hex := Payload(sources, answers, i, total, file.size, 0).value;
                DecodeChunk(hex, file.chunkSize, i, total, file.size, |written|) == Ok(Piece(f, file.chunkSize, i))
      {
        NextAccepted(file, sources, answers, total, chunkHash, wholeHash, f, i);
      }
      var payload := FetchChunk(sources, answers, i, total, file.size);
      if payload.None? {
        return Err(NotFetched);
      }
      var chunk := DecodeChunk(payload.value, file.chunkSize, i, total, file.size, |written|);
      if chunk.Err? {
        return Err(chunk.error);
      }
      if i >= |file.hashes| {
        return Err(MissingHash);
      }
      if chunkHash(chunk.value) != file.hashes[i] {
        return Err(HashMismatch);
      }
      PlaceChunk(file, sources, answers, total, chunkHash, written, i, chunk.value);
      written := written + chunk.value;
    }
    forall f | Complete(file, sources, answers, total, chunkHash, wholeHash, f)
      ensures f == written && |written| == file.size && wholeHash(written) == file.hash
    {
      AllPlaced(file, sources, answers, total, chunkHash, wholeHash, written, f);
      CompleteFacts(file, sources, answers, total, chunkHash, wholeHash, f);
    }
    if |written| != file.size {
      return Err(SizeMismatch);
    }
    if wholeHash(written) != file.hash {
      return Err(FileHashMismatch);
    }
    PlacedIsComplete(file, sources, answers, total, chunkHash, wholeHash, written);
    r := Ok(written);
  }

  lemma CompleteFacts(file: File, sources: nat, answers: Answers, total: nat, chunkHash: Hex.Hash,
                      wholeHash: Hex.Hash, f: Bytes)
    requires Complete(file, sources, answers, total, chunkHash, wholeHash, f)
    ensures |f| == file.size && wholeHash(f) == file.hash
  {
  }

  lemma PlacedIsComplete(file: File, sources: nat, answers: Answers, total: nat, chunkHash: Hex.Hash,
                         wholeHash: Hex.Hash, f: Bytes)
    requires Placed(file, sources, answers, total, chunkHash, f, total) && |f| == file.size && wholeHash(f) == file.hash
    ensures Complete(file, sources, answers, total, chunkHash, wholeHash, f)
  {
    hide Delivered, Spans;
  }
}
