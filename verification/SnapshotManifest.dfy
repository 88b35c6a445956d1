/** Manifest sanity, and what it makes of the two downloads. */
module SnapshotManifest {
  import opened Options
  import opened ByteKeys
  import opened Chunks
  import opened Download
  import Hex
  import Powers

  const MAX_FILE_SIZE: nat := 64 * 1024 * 1024 * 1024
  const MAX_CHUNK_SIZE: nat := 4 * 1024 * 1024
  const MAX_TOTAL_CHUNKS: nat := 65536
  const TWO_64: nat := 0x1_0000_0000_0000_0000
  const TWO_32: nat := 0x1_0000_0000

  datatype Manifest = Manifest(fileName: string, snapshot: File, replay: File)

  datatype SanityError =
    | EmptyName | UnsafeName | ZeroSize | SnapshotTooLarge | ReplayTooLarge | SnapshotChunkSize | ReplayChunkSize
    | CountFailed | SnapshotCountRange | SnapshotHashCount | ReplayCountRange | ReplayHashCount

  /** A plain Unix file name. */
  predicate SafeName(name: string) {
    name != "" && '/' !in name && name != "." && name != ".."
  }

  /** n chunks cover the file and the last of them is needed. */
  predicate Fits(size: nat, chunkSize: nat, n: nat) {
    && size <= Offset(chunkSize, n)
    && (n > 0 ==> Offset(chunkSize, n - 1) < size)
  }

  /** `expected_chunk_count`, with its check for overflow of 64 bits. */
  function ExpectedChunkCount(size: nat, chunkSize: nat): (r: Option<nat>)
    ensures r.None? <==> chunkSize == 0 || (size > 0 && size + chunkSize - 1 >= TWO_64)
    ensures r.Some? ==> Fits(size, chunkSize, r.value)
  {
    if chunkSize == 0 then None
    else if size == 0 then Some(0)
    else if size + chunkSize - 1 >= TWO_64 then None
    else
      RoundUpFits(size, chunkSize);
      Some((size + chunkSize - 1) / chunkSize)
  }

  lemma RoundUpFits(size: nat, chunkSize: nat)
    requires chunkSize > 0 && size > 0
    ensures (size + chunkSize - 1) / chunkSize > 0
    ensures Fits(size, chunkSize, (size + chunkSize - 1) / chunkSize)
  {
    var n := (size + chunkSize - 1) / chunkSize;
    Powers.DivModIdentity(size + chunkSize - 1, chunkSize);
    if n > 0 { OffsetNext(chunkSize, n - 1); }
  }

  lemma FitsUnique(size: nat, chunkSize: nat, m: nat, n: nat)
    requires Fits(size, chunkSize, m) && Fits(size, chunkSize, n)
    ensures m == n
  {
    hide Offset;
    if m < n { OffsetMono(chunkSize, m, n - 1); }
    if n < m { OffsetMono(chunkSize, n, m - 1); }
  }

  lemma FitsSpans(size: nat, chunkSize: nat, n: nat)
    requires Fits(size, chunkSize, n) && n > 0
    ensures Spans(size, chunkSize, n)
  {
  }

  /** The sizes and hash counts of one file agree. */
  predicate SaneFile(f: File) {
    && f.size <= MAX_FILE_SIZE && 1 <= f.chunkSize <= MAX_CHUNK_SIZE
    && |f.hashes| <= MAX_TOTAL_CHUNKS && Fits(f.size, f.chunkSize, |f.hashes|)
  }

  predicate Sane(m: Manifest) {
    SafeName(m.fileName) && m.snapshot.size > 0 && SaneFile(m.snapshot) && SaneFile(m.replay)
  }

  function ValidateManifest(m: Manifest): (r: Result<(), SanityError>)
    ensures r.Ok? <==> Sane(m)
    ensures r.Ok? ==> '/' !in m.fileName && m.fileName != "." && m.fileName != ".." && m.fileName != ""
  {
    if m.fileName == "" then Err(EmptyName)
    else if !SafeName(m.fileName) then Err(UnsafeName)
    else if m.snapshot.size == 0 then Err(ZeroSize)
    else if m.snapshot.size > MAX_FILE_SIZE then Err(SnapshotTooLarge)
    else if m.replay.size > MAX_FILE_SIZE then Err(ReplayTooLarge)
    else if m.snapshot.chunkSize == 0 || m.snapshot.chunkSize > MAX_CHUNK_SIZE then Err(SnapshotChunkSize)
    else if m.replay.chunkSize == 0 || m.replay.chunkSize > MAX_CHUNK_SIZE then Err(ReplayChunkSize)
    else
      CountIff(m.snapshot);
      CountIff(m.replay);
      match ExpectedChunkCount(m.snapshot.size, m.snapshot.chunkSize)
      case None => Err(CountFailed)
      case Some(chunks) =>
        if chunks == 0 || chunks > MAX_TOTAL_CHUNKS then Err(SnapshotCountRange)
        else if |m.snapshot.hashes| != chunks then Err(SnapshotHashCount)
        else
          match ExpectedChunkCount(m.replay.size, m.replay.chunkSize)
          case None => Err(CountFailed)
          case Some(chunks) =>
            if chunks > MAX_TOTAL_CHUNKS then Err(ReplayCountRange)
            else if |m.replay.hashes| != chunks then Err(ReplayHashCount)
            else Ok(())
  }

  /** What passes, in numbers: at most 64 GiB, chunks of 1 byte to 4 MiB, at most 65536 of
      them, the hashes just covering the file, and a snapshot that is not empty. */
  lemma SaneInNumbers(m: Manifest)
    requires ValidateManifest(m).Ok?
    ensures 0 < m.snapshot.size && FileInNumbers(m.snapshot) && FileInNumbers(m.replay)
  {
    hide ValidateManifest;
  }

  ghost predicate FileInNumbers(f: File) {
    && f.size <= 68719476736 && 1 <= f.chunkSize <= 4194304 && |f.hashes| <= 65536
    && f.size <= f.chunkSize * |f.hashes| && (f.size > 0 ==> f.chunkSize * (|f.hashes| - 1) < f.size)
    && (f.size == 0 ==> f.hashes == [])
  }

  /** And nothing else fails. */
  lemma NumbersAreSane(m: Manifest)
    requires 0 < m.snapshot.size && FileInNumbers(m.snapshot) && FileInNumbers(m.replay)
    requires m.fileName != "" && '/' !in m.fileName && m.fileName != "." && m.fileName != ".."
    ensures ValidateManifest(m).Ok?
  {
    hide ValidateManifest;
  }

  lemma CountIff(f: File)
    requires f.size <= MAX_FILE_SIZE && 1 <= f.chunkSize <= MAX_CHUNK_SIZE
    ensures var n := ExpectedChunkCount(f.size, f.chunkSize);
            && n.Some? && (n.value == 0 ==> f.size == 0)
            && (Fits(f.size, f.chunkSize, |f.hashes|) <==> |f.hashes| == n.value)
  {
    var n := ExpectedChunkCount(f.size, f.chunkSize).value;
    if Fits(f.size, f.chunkSize, |f.hashes|) { FitsUnique(f.size, f.chunkSize, |f.hashes|, n); }
  }

  /** `download_and_verify_snapshot_to_file`: the number of chunks is the number of hashes,
      cut to 32 bits. */
  method DownloadSnapshot(file: File, sources: nat, answers: Answers, chunkHash: Hex.Hash, wholeHash: Hex.Hash)
    returns (r: Result<Bytes, ChunkError>)
    ensures forall f :: r == Ok(f) <==>
              Complete(file, sources, answers, |file.hashes| % TWO_32, chunkHash, wholeHash, f)
  {
    var total := |file.hashes| % TWO_32;
    if total == 0 {
      return Err(NoChunks);
    }
    r := Assemble(file, sources, answers, total, chunkHash, wholeHash);
  }

  /** `download_and_verify_replay_window_to_file`: an empty window is written without any
      hash check. */
  method DownloadReplay(file: File, sources: nat, answers: Answers, chunkHash: Hex.Hash, wholeHash: Hex.Hash)
    returns (r: Result<Bytes, ChunkError>)
    ensures forall f :: r == Ok(f) <==>
              if |file.hashes| % TWO_32 == 0 then f == [] && file.size == 0
              else Complete(file, sources, answers, |file.hashes| % TWO_32, chunkHash, wholeHash, f)
  {
    var total := |file.hashes| % TWO_32;
    if total == 0 {
      if file.size != 0 {
        return Err(NoChunks);
      }
      return Ok([]);
    }
    r := Assemble(file, sources, answers, total, chunkHash, wholeHash);
  }

  /** A sane file's chunk count survives the cut to 32 bits. */
  lemma SaneTotal(f: File)
    requires SaneFile(f)
    ensures |f.hashes| % TWO_32 == |f.hashes|
    ensures |f.hashes| == 0 <==> f.size == 0
  {
    hide Offset;
    OffsetNext(f.chunkSize, 0);
    if |f.hashes| > 0 { assert Offset(f.chunkSize, |f.hashes| - 1) >= 0; }
  }

  /** The manifest entry an honest publisher makes of a file. */
  ghost predicate Describes(file: File, f: Bytes, chunkHash: Hex.Hash, wholeHash: Hex.Hash) {
    && SaneFile(file) && file.size == |f| && file.hash == wholeHash(f)
    && forall i :: 0 <= i < |file.hashes| ==> file.hashes[i] == chunkHash(Piece(f, file.chunkSize, i))
  }

  /** An answer that will be taken for chunk i carries that piece of f in hexadecimal. */
  ghost predicate Honest(file: File, f: Bytes, a: Answer, i: nat) {
    a.Chunk? && a.index == i && a.total == |file.hashes| && a.fileSize == file.size ==>
      a.hex == Hex.Encode(Piece(f, file.chunkSize, i))
  }

  /** Some source has the chunk. */
  ghost predicate Available(file: File, sources: nat, answers: Answers, i: nat) {
    exists s :: 0 <= s < sources && HasHeader(answers(s, i), i, |file.hashes|, file.size)
  }

  /** The header of chunk i. */
  ghost predicate HasHeader(a: Answer, i: nat, total: nat, size: nat) {
    exists hex :: a == Chunk(i, total, size, hex)
  }

  /** Splitting and assembling undo each other: when each chunk has some source, and no
      source answers with a right header and wrong data, the download of a described file
      ends with that file and with nothing else. Sources may be blocked, fail, or answer
      with other headers at will. */
  lemma HonestDownload(file: File, f: Bytes, sources: nat, answers: Answers, chunkHash: Hex.Hash, wholeHash: Hex.Hash)
    requires Describes(file, f, chunkHash, wholeHash) && |f| > 0
    requires forall i :: 0 <= i < |file.hashes| ==> Available(file, sources, answers, i)
    requires forall s, i :: 0 <= s < sources && 0 <= i < |file.hashes| ==> Honest(file, f, answers(s, i), i)
    ensures forall g :: Complete(file, sources, answers, |file.hashes| % TWO_32, chunkHash, wholeHash, g) <==> g == f
  {
    hide Offset, Piece, Payload, Hex.Decode, Hex.Encode, Spans, Fits, Matches;
    SaneTotal(file);
    var n := |file.hashes|;
    FitsSpans(|f|, file.chunkSize, n);
    forall i | 0 <= i < n ensures Delivered(file, sources, answers, n, chunkHash, f, i) {
      assert Available(file, sources, answers, i);
      var s :| 0 <= s < sources && HasHeader(answers(s, i), i, n, file.size);
      HeaderMatches(answers(s, i), i, n, file.size);
      var source := PayloadOfSource(sources, answers, i, n, file.size, s);
      HeaderMatches(answers(source, i), i, n, file.size);
      assert Honest(file, f, answers(source, i), i);
      Hex.DecodeEncode(Piece(f, file.chunkSize, i));
    }
    forall g | Complete(file, sources, answers, n, chunkHash, wholeHash, g) ensures g == f {
      CompleteUnique(file, sources, answers, n, chunkHash, wholeHash, f, g);
    }
  }

  lemma HeaderMatches(a: Answer, i: nat, total: nat, size: nat)
    ensures Matches(a, i, total, size) <==> HasHeader(a, i, total, size)
    ensures Matches(a, i, total, size) ==> a.Chunk? && a.index == i && a.total == total && a.fileSize == size
  {
    if Matches(a, i, total, size) { assert a == Chunk(i, total, size, a.hex); }
  }

  /** Once a source has answered with the right header, no other is asked: if the first such
      payload does not decode, or has the wrong hash, the download fails whoever else has
      the chunk. */
  lemma FirstAnswerDecides(file: File, sources: nat, answers: Answers, n: nat, chunkHash: Hex.Hash, wholeHash: Hex.Hash,
                           i: nat, first: nat)
    requires i < n && first < sources && Matches(answers(Turn(sources, i, first), i), i, n, file.size)
    requires forall t :: 0 <= t < first ==> !Matches(answers(Turn(sources, i, t), i), i, n, file.size)
    requires var b := Hex.Decode(answers(Turn(sources, i, first), i).hex);
             b.None? || i >= |file.hashes| || chunkHash(b.value) != file.hashes[i]
    ensures forall g :: !Complete(file, sources, answers, n, chunkHash, wholeHash, g)
  {
    hide Piece, Payload, Hex.Decode, Spans, Turn;
    PayloadAt(sources, answers, i, n, file.size, 0, first);
    forall g ensures !Complete(file, sources, answers, n, chunkHash, wholeHash, g) {
      assert !Delivered(file, sources, answers, n, chunkHash, g, i);
    }
  }

  ghost predicate NoChunkCollision(chunkHash: Hex.Hash, f: Bytes, g: Bytes, chunkSize: nat, n: nat) {
    forall i :: 0 <= i < n && chunkHash(Piece(f, chunkSize, i)) == chunkHash(Piece(g, chunkSize, i)) ==>
      Piece(f, chunkSize, i) == Piece(g, chunkSize, i)
  }

  /** Two complete downloads of one manifest entry, whatever the sources answered, are the
      same file unless two of their chunks collide. */
  lemma DownloadUnique(file: File, sources: nat, answers: Answers, others: nat, otherAnswers: Answers, n: nat,
                       chunkHash: Hex.Hash, wholeHash: Hex.Hash, f: Bytes, g: Bytes)
    requires Complete(file, sources, answers, n, chunkHash, wholeHash, f)
    requires Complete(file, others, otherAnswers, n, chunkHash, wholeHash, g)
    requires NoChunkCollision(chunkHash, f, g, file.chunkSize, n)
    ensures f == g
  {
    hide Offset, Piece, Payload, Hex.Decode;
    forall i | 0 <= i < n ensures Piece(f, file.chunkSize, i) == Piece(g, file.chunkSize, i) {
      assert Delivered(file, sources, answers, n, chunkHash, f, i);
      assert Delivered(file, others, otherAnswers, n, chunkHash, g, i);
    }
    PiecesDetermine(f, g, file.chunkSize, n);
  }
}
