/**
 Where pieces are kept: one flat file (`FileTorrentIO`, src/peer/io/file.rs) or one
 buffer per piece (`MemoryTorrentIO`, src/peer/io/mod.rs), as values. SHA-1 is any
 function `sha1`; seeking, buffering and failing system calls are not modelled.
 */
module Storage {
  import opened Common
  import opened Torrents
  import opened SliceTracking

  type Hash = seq<byte> -> Digest

  /** The errors of src/peer/error.rs that storage reports. */
  datatype IoError =
    | BadPieceIdx(index: nat)
    | BadBounds(index: nat, end: nat)
    | FileAlreadyComplete(index: nat)
    | FilePieceNotFinished(index: nat)
    | PieceHashMismatch(index: nat)

  datatype Result<T> = Ok(value: T) | Err(error: IoError)

  /** A block that arrived: its piece, its offset in the piece, its bytes. */
  datatype Write = Write(index: nat, begin: nat, block: seq<byte>)

  /** `file` with the bytes from `at` on replaced by `block`. */
  function Splice(file: seq<byte>, at: nat, block: seq<byte>): (r: seq<byte>)
    requires at + |block| <= |file|
    ensures |r| == |file|
    ensures forall i :: 0 <= i < |file| ==> r[i] == if at <= i < at + |block| then block[i - at] else file[i]
  {
    file[..at] + block + file[at + |block|..]
  }

  // ------------------------------------------------------------------ layout of the file

  /** Where a piece starts: its own length times its number. */
  function Start(t: Torrent, p: nat): nat
    requires t.Valid()
  {
    PieceSize(t, p) * p
  }

  function Region(t: Torrent, p: nat): Slice
    requires t.Valid()
  {
    Slice(Start(t, p), Start(t, p) + PieceSize(t, p))
  }

  /** The multiple of `m` below `x`. */
  lemma MultipleBelow(x: nat, n: nat, m: nat) returns (q: nat)
    requires m > 0 && x < n * m
    ensures q < n && q * m <= x < (q + 1) * m
  {
    q := x / m;
    assert x == q * m + x % m;
    MulNext(q, m);
    if n <= q {
      MulLe(n, q, m);
      assert false;
    }
  }

  /** The arithmetic of a layout of `n` pieces of `max` bytes, the last one of `last` bytes. */
  lemma LayoutArithmetic(n: nat, max: nat, last: nat, p: nat)
    requires 0 < last <= max && p < n
    ensures p < n - 1 ==> max * p + max == (p + 1) * max && (p + 1) * max <= (n - 1) * max
    ensures last * (n - 1) + last <= (n - 1) * max + last
  {
    MulNext(p, max);
    if p < n - 1 {
      MulLe(p + 1, n - 1, max);
    }
    MulLe(last, max, n - 1);
  }

  lemma RegionInFile(t: Torrent, p: nat)
    requires t.Valid() && p < t.Pieces()
    ensures Region(t, p).end <= t.length
    ensures p < t.Pieces() - 1 ==>
              Start(t, p) == p * t.pieceLength && Region(t, p).end == (p + 1) * t.pieceLength <= (t.Pieces() - 1) * t.pieceLength
  {
    LastPieceShort(t);
    LayoutArithmetic(t.Pieces(), t.pieceLength, PieceSize(t, t.Pieces() - 1), p);
  }

  lemma LastPieceShort(t: Torrent)
    requires t.Valid()
    ensures PieceSize(t, t.Pieces() - 1) <= t.pieceLength
    ensures PieceSize(t, t.Pieces() - 1) == t.length - (t.Pieces() - 1) * t.pieceLength
    ensures PieceSize(t, t.Pieces() - 1) == t.pieceLength <==> t.FullLastPiece()
  {
    MulNext(t.Pieces() - 1, t.pieceLength);
  }

  /** Regions are where they should be when the last piece is not shorter than the others. */
  predicate Aligned(t: Torrent) {
    t.Pieces() == 1 || t.FullLastPiece()
  }

  lemma AlignedStart(t: Torrent, p: nat)
    requires t.Valid() && Aligned(t) && p < t.Pieces()
    ensures Start(t, p) == p * t.pieceLength
    ensures p + 1 < t.Pieces() ==> Region(t, p).end == (p + 1) * t.pieceLength
    ensures p + 1 == t.Pieces() ==> Region(t, p).end == t.length
  {
    RegionInFile(t, p);
    LastPieceShort(t);
  }

  /** The regions of two pieces share no byte of the file. */
  lemma AlignedApart(t: Torrent, p: nat, q: nat)
    requires t.Valid() && Aligned(t) && p < q < t.Pieces()
    ensures Apart(Region(t, p), Region(t, q))
  {
    AlignedStart(t, p);
    AlignedStart(t, q);
    MulLe(p + 1, q, t.pieceLength);
  }

  /** A shorter last piece starts inside another one. */
  lemma ShortLastOverlaps(t: Torrent) returns (p: nat)
    requires t.Valid() && !Aligned(t)
    ensures p < t.Pieces() - 1
    ensures Region(t, p).Has(Start(t, t.Pieces() - 1))
    ensures Region(t, t.Pieces() - 1).end < t.length
  {
    var n, max, last := t.Pieces(), t.pieceLength, PieceSize(t, t.Pieces() - 1);
    LastPieceShort(t);
    RegionInFile(t, n - 1);
    p := ShortStart(n, max, last);
    RegionInFile(t, p);
  }

  /** The piece of full length in which a shorter last one starts. */
  lemma ShortStart(n: nat, max: nat, last: nat) returns (p: nat)
    requires n >= 2 && 0 < last < max
    ensures p < n - 1 && p * max <= last * (n - 1) < (p + 1) * max
    ensures last * (n - 1) < (n - 1) * max
  {
    MulLt(last, max, n - 1);
    p := MultipleBelow(last * (n - 1), n - 1, max);
  }

  /** Different pieces have disjoint regions exactly when the last piece has the full length, or is the only one. */
  lemma RegionsDisjointIff(t: Torrent)
    requires t.Valid()
    ensures (forall p, q :: 0 <= p < q < t.Pieces() ==> Apart(Region(t, p), Region(t, q))) <==> Aligned(t)
  {
    if Aligned(t) {
      forall p, q | 0 <= p < q < t.Pieces() ensures Apart(Region(t, p), Region(t, q)) {
        AlignedApart(t, p, q);
      }
    } else {
      var p := ShortLastOverlaps(t);
      assert !Apart(Region(t, p), Region(t, t.Pieces() - 1));
    }
  }

  ghost predicate InSomeRegion(t: Torrent, x: nat)
    requires t.Valid()
  {
    exists p :: 0 <= p < t.Pieces() && Region(t, p).Has(x)
  }

  /** The regions fill the file exactly under the same condition. */
  lemma RegionsFillIff(t: Torrent)
    requires t.Valid()
    ensures (forall x :: 0 <= x < t.length ==> InSomeRegion(t, x)) <==> Aligned(t)
  {
    var n := t.Pieces();
    if Aligned(t) {
      forall x | 0 <= x < t.length ensures InSomeRegion(t, x) {
        AlignedHolder(t, x);
      }
    } else {
      var _ := ShortLastOverlaps(t);
      forall p | 0 <= p < n ensures !Region(t, p).Has(t.length - 1) {
        RegionInFile(t, p);
      }
      assert !InSomeRegion(t, t.length - 1);
    }
  }

  lemma AlignedHolder(t: Torrent, x: nat)
    requires t.Valid() && Aligned(t) && x < t.length
    ensures InSomeRegion(t, x)
  {
    var max := t.pieceLength;
    var p := MultipleBelow(x, t.Pieces(), max);
    AlignedStart(t, p);
    assert Region(t, p).Has(x);
  }

  // ------------------------------------------------------------------ one piece among the others

  /** The region of the piece shares no byte with that of another piece. */
  ghost predicate StandsAlone(t: Torrent, p: nat)
    requires t.Valid()
  {
    forall q :: 0 <= q < t.Pieces() && q != p ==> Apart(Region(t, p), Region(t, q))
  }

  lemma AlignedStandsAlone(t: Torrent, p: nat)
    requires t.Valid() && Aligned(t) && p < t.Pieces()
    ensures StandsAlone(t, p)
  {
    hide Aligned, Region;
    forall q | 0 <= q < t.Pieces() && q != p ensures Apart(Region(t, p), Region(t, q)) {
      if p < q {
        AlignedApart(t, p, q);
      } else {
        AlignedApart(t, q, p);
      }
    }
  }

  /** Pieces of full length never overlap each other. */
  lemma FullApart(t: Torrent, p: nat, q: nat)
    requires t.Valid() && p < q < t.Pieces() - 1
    ensures Apart(Region(t, p), Region(t, q))
  {
    RegionInFile(t, p);
    RegionInFile(t, q);
    MulLe(p + 1, q, t.pieceLength);
  }

  /** A piece of full length stands alone exactly when the last one does not lie on it. */
  lemma StandsAloneIff(t: Torrent, p: nat)
    requires t.Valid() && p < t.Pieces() - 1
    ensures StandsAlone(t, p) <==> Apart(Region(t, p), Region(t, t.Pieces() - 1))
  {
    hide Region;
    if Apart(Region(t, p), Region(t, t.Pieces() - 1)) {
      forall q | 0 <= q < t.Pieces() && q != p ensures Apart(Region(t, p), Region(t, q)) {
        if p < q < t.Pieces() - 1 {
          FullApart(t, p, q);
        } else if q < p {
          FullApart(t, q, p);
        }
      }
    }
  }

  /** The last piece stands alone exactly when it has full length, or is the only one. */
  lemma LastStandsAloneIff(t: Torrent)
    requires t.Valid()
    ensures StandsAlone(t, t.Pieces() - 1) <==> Aligned(t)
  {
    if Aligned(t) {
      AlignedStandsAlone(t, t.Pieces() - 1);
    } else {
      var p := ShortLastOverlaps(t);
      assert !Apart(Region(t, t.Pieces() - 1), Region(t, p));
    }
  }

  /** Where the bytes of a piece are in the download. */
  function Offset(t: Torrent, p: nat): nat {
    p * t.pieceLength
  }

  lemma OffsetInDownload(t: Torrent, p: nat)
    requires t.Valid() && p < t.Pieces()
    ensures Offset(t, p) + PieceSize(t, p) <= t.length
  {
    LastPieceShort(t);
    RegionInFile(t, p);
  }

  /** A piece that stands alone is kept where its bytes are in the download. */
  lemma AloneAtOffset(t: Torrent, p: nat)
    requires t.Valid() && p < t.Pieces() && StandsAlone(t, p)
    ensures Start(t, p) == Offset(t, p)
  {
    hide StandsAlone;
    if p == t.Pieces() - 1 {
      LastStandsAloneIff(t);
      AlignedStart(t, p);
    } else {
      RegionInFile(t, p);
    }
  }

  /** A short last piece lies on one or two of the others; all the rest stand alone. */
  lemma FewOverlapped(t: Torrent) returns (first: nat)
    requires t.Valid() && !Aligned(t)
    ensures first < t.Pieces() - 1 && !StandsAlone(t, first)
    ensures forall p :: 0 <= p < t.Pieces() - 1 && !StandsAlone(t, p) ==> p == first || p == first + 1
  {
    var n, max, last := t.Pieces(), t.pieceLength, PieceSize(t, t.Pieces() - 1);
    LastPieceShort(t);
    first := ShortStart(n, max, last);
    RegionInFile(t, first);
    assert Region(t, first).Has(Start(t, n - 1));
    hide StandsAlone;
    StandsAloneIff(t, first);
    forall p | 0 <= p < n - 1 && !StandsAlone(t, p) ensures p == first || p == first + 1 {
      StandsAloneIff(t, p);
      RegionInFile(t, p);
      if p < first {
        MulLe(p + 1, first, max);
      } else if first + 2 <= p {
        MulLe(first + 2, p, max);
        MulNext(first + 1, max);
      }
    }
  }
}
