/**
 `FileTorrentIO` of src/peer/io/file.rs as an object over a byte array, proved against
 the operations of module `FileIo`.
 */
module FileTorrentIo {
  import opened Common
  import opened Torrents
  import opened SliceTracking
  import opened Storage
  import opened FileIo

  class FilePieceState {
    const hash: Digest
    const startIdx: nat
    const size: nat
    const slices: Slices

    constructor (expectedSize: nat, startIdx: nat, hash: Digest)
      ensures fresh(slices) && slices.slices == [] && slices.expectedSize == expectedSize
      ensures this.hash == hash && this.startIdx == startIdx && size == expectedSize
    {
      this.hash, this.startIdx, this.size := hash, startIdx, expectedSize;
      slices := new Slices(expectedSize);
    }
  }

  ghost function Trackers(pieces: seq<FilePieceState>): (ts: seq<Slices>)
    ensures |ts| == |pieces| && forall i :: 0 <= i < |pieces| ==> ts[i] == pieces[i].slices
  {
    seq(|pieces|, i requires 0 <= i < |pieces| => pieces[i].slices)
  }

  class FileTorrentIO {
    const torrent: Torrent
    const sha1: Hash
    const file: array<byte>
    const allocation: TorrentAllocation
    var pieceToFile: seq<FilePieceState>

    ghost predicate Valid()
      reads this, file, set p | p in pieceToFile :: p.slices
    {
      && torrent.Valid()
      && allocation == AllocateTorrent(torrent)
      && file.Length == torrent.length
      && |pieceToFile| == torrent.Pieces()
      && (forall i :: 0 <= i < |pieceToFile| ==> LaidOut(i))
      && (forall i, j :: 0 <= i < j < |pieceToFile| ==> pieceToFile[i].slices != pieceToFile[j].slices)
    }

    /** Piece `i` has its place in the file, and its slices are in order. */
    ghost predicate LaidOut(i: nat)
      requires torrent.Valid() && i < |pieceToFile| == torrent.Pieces()
      reads this, pieceToFile[i].slices
    {
      var piece := pieceToFile[i];
      && piece.hash == torrent.hashes[i]
      && piece.startIdx == Start(torrent, i)
      && piece.size == piece.slices.expectedSize == PieceSize(torrent, i)
      && Sorted(piece.slices.slices)
    }

    ghost function Value(): (s: FileState)
      requires Valid()
      reads this, file, set p | p in pieceToFile :: p.slices
      ensures WellFormed(torrent, s)
    {
      assert forall i :: 0 <= i < |pieceToFile| ==> LaidOut(i) && Sorted(pieceToFile[i].slices.slices);
      FileState(file[..], SlicesOf(Trackers(pieceToFile)))
    }

    constructor (torrent: Torrent, sha1: Hash)
      requires torrent.Valid()
      ensures Valid() && this.torrent == torrent && this.sha1 == sha1
      ensures Value() == Empty(torrent)
    {
      this.torrent, this.sha1 := torrent, sha1;
      allocation := AllocateTorrent(torrent);
      file := new byte[torrent.length](_ => 0);
      pieceToFile := [];
      new;
      for idx := 0 to allocation.totalPieces
        invariant file[..] == seq(torrent.length, _ => 0)
        invariant |pieceToFile| == idx <= torrent.Pieces()
        invariant forall i :: 0 <= i < idx ==>
          && pieceToFile[i].hash == torrent.hashes[i]
          && pieceToFile[i].startIdx == Start(torrent, i)
          && pieceToFile[i].size == pieceToFile[i].slices.expectedSize == PieceSize(torrent, i)
          && pieceToFile[i].slices.slices == []
          && fresh(pieceToFile[i].slices)
        invariant forall i, j :: 0 <= i < j < idx ==> pieceToFile[i].slices != pieceToFile[j].slices
      {
        var pieceLen := allocation.PieceLen(idx);
        var start := pieceLen * idx;
        var filePiece := new FilePieceState(pieceLen, start, torrent.hashes[idx]);
        pieceToFile := pieceToFile + [filePiece];
      }
      assert Value() == Empty(torrent);
    }

    method ComputeFileSha1Hash(index: nat) returns (digest: Digest)
      requires Valid() && index < |pieceToFile|
      ensures digest == sha1(PieceBytes(torrent, Value(), index))
    {
      var piece := pieceToFile[index];
      assert LaidOut(index);
      RegionInFile(torrent, index);
      assert file[..][piece.startIdx..piece.startIdx + piece.size] == file[piece.startIdx..piece.startIdx + piece.size];
      digest := sha1(file[piece.startIdx..piece.startIdx + piece.size]);
    }

    /** `seek` and `write_all`. */
    method WriteAll(at: nat, block: seq<byte>)
      requires at + |block| <= file.Length
      modifies file
      ensures file[..] == Splice(old(file[..]), at, block)
    {
      forall i | 0 <= i < |block| {
        file[at + i] := block[i];
      }
    }

    /** The accepted part of a write: the bytes go to the file, the range to the slices. */
    method Store(index: nat, begin: nat, block: seq<byte>) returns (finished: bool)
      requires Valid() && Refusal(torrent, Value(), index, begin, |block|).None?
      modifies file, set p | p in pieceToFile :: p.slices
      ensures Valid()
      ensures Value() == Stored(torrent, old(Value()), index, begin, block)
      ensures finished == Complete(torrent, Value(), index)
    {
      hide Inserted, SlicesOf, IsComplete;
      ghost var was := Value();
      var piece := pieceToFile[index];
      assert LaidOut(index);
      RegionInFile(torrent, index);
      WriteAll(piece.startIdx + begin, block);
      finished := piece.slices.Insert(begin, |block|);
      forall i | 0 <= i < |pieceToFile| ensures LaidOut(i) {
        assert old(LaidOut(i));
      }
      assert SlicesOf(Trackers(pieceToFile)) == was.slices[index := Inserted(was.slices[index], Slice(begin, begin + |block|))];
    }

    method WritePiece(index: nat, begin: nat, block: seq<byte>) returns (r: Result<bool>)
      requires Valid()
      modifies file, set p | p in pieceToFile :: p.slices
      ensures Valid()
      ensures (Value(), r) == Written(torrent, sha1, old(Value()), index, begin, block)
    {
      hide Stored, SlicesOf, IsComplete;
      if index >= |pieceToFile| {
        return Err(BadPieceIdx(index));
      }
      var piece := pieceToFile[index];
      assert LaidOut(index);
      if IsComplete(piece.slices.slices, piece.slices.expectedSize) {
        return Err(FileAlreadyComplete(index));
      }
      var endPos := begin + |block|;
      if endPos > allocation.PieceLen(index) {
        return Err(BadBounds(index, endPos));
      }
      var finished := Store(index, begin, block);
      if finished {
        var computedHash := ComputeFileSha1Hash(index);
        if computedHash == piece.hash {
          r := Ok(true);
        } else {
          r := Err(PieceHashMismatch(index));
        }
      } else {
        r := Ok(false);
      }
    }

    method ReadPiece(index: nat, begin: nat, length: nat) returns (r: Result<seq<byte>>)
      requires Valid()
      ensures r == Read(torrent, Value(), index, begin, length)
    {
      if index >= |pieceToFile| {
        return Err(BadPieceIdx(index));
      }
      var piece := pieceToFile[index];
      assert LaidOut(index);
      var endPos := begin + length;
      if endPos > allocation.PieceLen(index) {
        return Err(BadBounds(index, endPos));
      }
      if !IsComplete(piece.slices.slices, piece.slices.expectedSize) {
        return Err(FilePieceNotFinished(index));
      }
      RegionInFile(torrent, index);
      var at := piece.startIdx + begin;
      assert file[at..at + length] == PieceBytes(torrent, Value(), index)[begin..begin + length];
      r := Ok(file[at..at + length]);
    }
  }
}
