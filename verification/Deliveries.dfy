/**
 The blocks that a run of writes delivers to a piece, in either kind of storage: each a whole
 block of the piece, in any order, among blocks of other pieces.
 */
module Deliveries {
  import opened Common
  import opened Torrents
  import opened SliceTracking
  import opened Storage
  import opened Blocks

  /** The blocks of the piece that the writes were for. */
  function KeysTo(ws: seq<Write>, p: nat): (ks: seq<Key>)
    ensures forall k :: k in ks ==> k.piece == p && exists w :: w in ws && w.index == p && w.begin == k.begin
  {
    if ws == [] then []
    else
      var front, w := ws[..|ws| - 1], ws[|ws| - 1];
      assert ws == front + [w];
      KeysTo(front, p) + if w.index == p then [Key(p, w.begin)] else []
  }

  /** Every write to the piece is a whole block of it. */
  ghost predicate WholeBlocks(t: Torrent, ws: seq<Write>, p: nat)
    requires t.Valid()
  {
    forall w :: w in ws && w.index == p ==>
                  IsBlock(t, Key(p, w.begin)) && |w.block| == BlockLength(t, Key(p, w.begin))
  }

  lemma BlockInBounds(t: Torrent, k: Key)
    requires t.Valid() && IsBlock(t, k)
    ensures k.begin + BlockLength(t, k) <= PieceSize(t, k.piece)
  {
  }

  lemma WholeFront(t: Torrent, ws: seq<Write>, p: nat)
    requires t.Valid() && WholeBlocks(t, ws, p) && ws != []
    ensures WholeBlocks(t, ws[..|ws| - 1], p)
    ensures var w := ws[|ws| - 1]; w.index == p ==> IsBlock(t, Key(p, w.begin)) && |w.block| == BlockLength(t, Key(p, w.begin))
  {
    hide IsBlock, BlockLength;
    assert ws[|ws| - 1] in ws;
  }

  lemma KeysAreBlocks(t: Torrent, ws: seq<Write>, p: nat)
    requires t.Valid() && WholeBlocks(t, ws, p)
    ensures forall k :: k in KeysTo(ws, p) ==> IsBlock(t, k)
  {
    hide IsBlock, BlockLength;
  }

  lemma RunNext(t: Torrent, ks: seq<Key>, k: Key)
    requires t.Valid() && IsBlock(t, k) && forall j :: j in ks ==> IsBlock(t, j)
    ensures forall j :: j in ks + [k] ==> IsBlock(t, j)
    ensures Run(Blocks.Slices(t, ks + [k])) == Inserted(Run(Blocks.Slices(t, ks)), BlockSlice(t, k))
  {
    hide IsBlock, BlockLength, Inserted;
    assert Blocks.Slices(t, ks + [k]) == Blocks.Slices(t, ks) + [BlockSlice(t, k)];
    RunMore(Blocks.Slices(t, ks), BlockSlice(t, k));
  }

  lemma KeysToLast(ws: seq<Write>, p: nat)
    requires ws != []
    ensures var w := ws[|ws| - 1];
            KeysTo(ws, p) == if w.index == p then KeysTo(ws[..|ws| - 1], p) + [Key(p, w.begin)] else KeysTo(ws[..|ws| - 1], p)
  {
  }

  /** More different blocks than the piece has cannot arrive. */
  lemma RoomForLast(t: Torrent, ws: seq<Write>, p: nat)
    requires t.Valid() && WholeBlocks(t, ws, p) && Distinct(KeysTo(ws, p)) && ws != [] && ws[|ws| - 1].index == p
    ensures Distinct(KeysTo(ws[..|ws| - 1], p)) && |KeysTo(ws[..|ws| - 1], p)| < |PieceKeys(t, p)|
  {
    hide IsBlock, BlockLength, WholeBlocks, KeysTo;
    var ks := KeysTo(ws, p);
    KeysToLast(ws, p);
    KeysAreBlocks(t, ws, p);
    DistinctPrefix(ks, |ks| - 1);
    assert ks[..|ks| - 1] == KeysTo(ws[..|ws| - 1], p);
    PieceKeysDistinct(t, p);
    DistinctSize(PieceKeys(t, p));
    assert forall k :: k in ks ==> k in PieceKeys(t, p);
    SubsetBySize(ks, Elements(PieceKeys(t, p)));
  }
}
