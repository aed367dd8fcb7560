/**
 The layout of a torrent: pieces of equal length, the last one possibly shorter
 (`TorrentAllocation` of src/peer/mod.rs), cut into blocks of 16 KiB.
 */
module Torrents {
  import opened Common

  type Digest = seq<byte>
  type PeerId = seq<byte>

  const PIECE_BLOCK_SIZE: nat := 16_384

  /** The fields of `V1TorrentInfo` that matter here; one hash per piece. */
  datatype Torrent = Torrent(length: nat, pieceLength: nat, hashes: seq<Digest>) {

    function Pieces(): nat {
      |hashes|
    }

    /** What the source's arithmetic takes for granted of a torrent file. */
    predicate Valid() {
      && Pieces() >= 1
      && (Pieces() - 1) * pieceLength < length <= Pieces() * pieceLength
      && pieceLength < U32_LIMIT
    }

    /** Every piece, the last one too, has the full length. */
    predicate FullLastPiece() {
      length == Pieces() * pieceLength
    }
  }

  datatype TorrentAllocation = TorrentAllocation(totalPieces: nat, maxPieceSize: nat, lastPieceSize: nat) {

    function PieceLen(index: nat): nat {
      if index == totalPieces - 1 then lastPieceSize else maxPieceSize
    }
  }

  function AllocateTorrent(t: Torrent): (a: TorrentAllocation)
    requires t.Valid()
    ensures forall p :: 0 <= p < t.Pieces() ==> 0 < a.PieceLen(p) <= t.pieceLength
  {
    TorrentAllocation(t.Pieces(), t.pieceLength, t.length - (t.Pieces() - 1) * t.pieceLength)
  }

  function PieceSize(t: Torrent, piece: nat): (size: nat)
    requires t.Valid()
    ensures 0 < size < U32_LIMIT
  {
    AllocateTorrent(t).PieceLen(piece)
  }

  /** The pieces add up to the torrent. */
  lemma {:induction false} PieceSizesSum(t: Torrent, p: nat)
    requires t.Valid() && p <= t.Pieces()
    ensures SizeBefore(t, p) == if p == t.Pieces() then t.length else p * t.pieceLength
  {
    if p > 0 {
      PieceSizesSum(t, p - 1);
      assert p < t.Pieces() ==> SizeBefore(t, p) == (p - 1) * t.pieceLength + t.pieceLength;
    }
  }

  function SizeBefore(t: Torrent, p: nat): nat
    requires t.Valid() && p <= t.Pieces()
  {
    if p == 0 then 0 else SizeBefore(t, p - 1) + PieceSize(t, p - 1)
  }
}
