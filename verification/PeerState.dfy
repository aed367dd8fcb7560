/**
 What the client knows of its peers (`PeerPieceMap` and `TorrentState` of
 src/peer/state/mod.rs): who has which piece, who chokes us, who is interested.
 */
module PeerState {
  import opened Common
  import opened Torrents
  import opened Blocks
  import opened Tracker

  // ------------------------------------------------------------------ who has which piece

  /** The same relation twice: peers by piece and pieces by peer. */
  datatype PieceMap = PieceMap(piecesToPeers: map<nat, set<PeerId>>, peersToPieces: map<PeerId, set<nat>>) {

    ghost predicate Has(peer: PeerId, piece: nat) {
      peer in peersToPieces && piece in peersToPieces[peer]
    }

    ghost predicate HeldBy(piece: nat, peer: PeerId) {
      piece in piecesToPeers && peer in piecesToPeers[piece]
    }

    /** The two maps are inverse to each other. */
    ghost predicate Inverse() {
      forall peer, piece :: Has(peer, piece) <==> HeldBy(piece, peer)
    }

    function PeersWith(piece: nat): set<PeerId> {
      if piece in piecesToPeers then piecesToPeers[piece] else {}
    }

    function PiecesOf(peer: PeerId): set<nat> {
      if peer in peersToPieces then peersToPieces[peer] else {}
    }
  }

  function PieceAdded(m: PieceMap, peer: PeerId, piece: nat): (m': PieceMap)
    ensures forall q, p :: m'.Has(q, p) <==> m.Has(q, p) || (q == peer && p == piece)
    ensures m.Inverse() ==> m'.Inverse()
  {
    PieceMap(m.piecesToPeers[piece := m.PeersWith(piece) + {peer}], m.peersToPieces[peer := m.PiecesOf(peer) + {piece}])
  }

  function PeerRemoved(m: PieceMap, peer: PeerId): (m': PieceMap)
    ensures forall q, p :: m'.Has(q, p) <==> m.Has(q, p) && q != peer
    ensures m.Inverse() ==> m'.Inverse()
  {
    var m' := PieceMap(
      map p | p in m.piecesToPeers :: if p in m.PiecesOf(peer) then m.piecesToPeers[p] - {peer} else m.piecesToPeers[p],
      m.peersToPieces - {peer});
    assert forall q, p :: m'.HeldBy(p, q) <==> m.HeldBy(p, q) && !(q == peer && m.Has(q, p));
    m'
  }

  class PeerPieceMap {
    var piecesToPeers: map<nat, set<PeerId>>
    var peersToPieces: map<PeerId, set<nat>>

    ghost function Value(): PieceMap
      reads this
    {
      PieceMap(piecesToPeers, peersToPieces)
    }

    constructor ()
      ensures Value() == PieceMap(map[], map[])
    {
      piecesToPeers, peersToPieces := map[], map[];
    }

    method PeerInterest(peer: PeerId, outstanding: set<nat>) returns (wanted: set<nat>)
      ensures wanted == outstanding * Value().PiecesOf(peer)
    {
      wanted := if peer in peersToPieces then outstanding * peersToPieces[peer] else {};
    }

    method AddPiece(peer: PeerId, piece: nat)
      modifies this
      ensures Value() == PieceAdded(old(Value()), peer, piece)
    {
      peersToPieces := peersToPieces[peer := (if peer in peersToPieces then peersToPieces[peer] else {}) + {piece}];
      piecesToPeers := piecesToPeers[piece := (if piece in piecesToPeers then piecesToPeers[piece] else {}) + {peer}];
    }

    method GetPeersWithPiece(piece: nat) returns (peers: set<PeerId>)
      ensures peers == Value().PeersWith(piece)
      ensures Value().Inverse() ==> forall q :: q in peers <==> Value().Has(q, piece)
    {
      peers := if piece in piecesToPeers then piecesToPeers[piece] else {};
      assert forall q :: q in peers <==> Value().HeldBy(piece, q);
    }

    method RemovePeer(peer: PeerId)
      modifies this
      ensures Value() == PeerRemoved(old(Value()), peer)
    {
      if peer !in peersToPieces {
        assert piecesToPeers == PeerRemoved(Value(), peer).piecesToPeers;
        return;
      }
      var blocks := peersToPieces[peer];
      peersToPieces := peersToPieces - {peer};
      var left := blocks;
      while left != {}
        invariant left <= blocks
        invariant peersToPieces == old(peersToPieces) - {peer}
        invariant piecesToPeers.Keys == old(piecesToPeers.Keys)
        invariant forall p :: p in piecesToPeers ==>
          piecesToPeers[p] == if p in blocks - left then old(piecesToPeers[p]) - {peer} else old(piecesToPeers[p])
        decreases |left|
      {
        var block :| block in left;
        if block in piecesToPeers {
          piecesToPeers := piecesToPeers[block := piecesToPeers[block] - {peer}];
        }
        left := left - {block};
      }
    }
  }

  // ------------------------------------------------------------------ the state of all peers

  /** `InternalPeerState`: whether we choke the peer and whether we told it that we are interested. */
  datatype PeerFlags = PeerFlags(choked: bool, interested: bool)

  datatype TorrentView = TorrentView(
    tracker: State,
    interested: set<PeerId>,
    notChoking: set<PeerId>,
    pieceMap: PieceMap,
    peers: map<PeerId, PeerFlags>)
  {
    /** Everything known is known of a known peer, and both views of who has what agree. */
    ghost predicate Consistent() {
      && pieceMap.Inverse()
      && interested <= peers.Keys && notChoking <= peers.Keys
      && forall q, p :: pieceMap.Has(q, p) ==> q in peers
    }

    function PeersThatChoke(choke: bool): set<PeerId> {
      if choke then peers.Keys - notChoking else peers.Keys * notChoking
    }

    /** We are interested in a peer that has a piece we have not started. */
    predicate InterestedIn(peer: PeerId) {
      tracker.notStarted * pieceMap.PiecesOf(peer) != {}
    }

    /** `piece_id_to_peers`: the incomplete pieces, each with the peers we can get it from. */
    function PieceIdToPeers(): (m: map<nat, set<PeerId>>)
      ensures m.Keys == tracker.Incomplete()
    {
      map p | p in tracker.Incomplete() :: PeersThatChoke(false) * pieceMap.PeersWith(p)
    }
  }

  /** A piece can be asked of exactly the known peers that do not choke us and have it. */
  lemma AvailableExact(s: TorrentView, piece: nat, peer: PeerId)
    requires s.Consistent() && piece in s.tracker.Incomplete()
    ensures peer in s.PieceIdToPeers()[piece] <==>
              peer in s.peers && peer in s.notChoking && s.pieceMap.Has(peer, piece)
  {
    assert s.pieceMap.Has(peer, piece) <==> s.pieceMap.HeldBy(piece, peer);
  }

  /** Every known peer is on one side, by its last message. */
  lemma PeersThatChokeExact(s: TorrentView, q: PeerId)
    ensures q in s.PeersThatChoke(true) <==> q in s.peers && q !in s.notChoking
    ensures q in s.PeersThatChoke(false) <==> q in s.peers && q in s.notChoking
  {
  }

  /** A map that offers each incomplete piece in this way is the one above. */
  lemma OfferedExactly(s: TorrentView, m: map<nat, set<PeerId>>)
    requires m.Keys == s.tracker.Incomplete()
    requires forall p :: p in m ==> m[p] == s.PeersThatChoke(false) * s.pieceMap.PeersWith(p)
    ensures m == s.PieceIdToPeers()
  {
  }

  function NewState(tracker: State): TorrentView {
    TorrentView(tracker, {}, {}, PieceMap(map[], map[]), map[])
  }

  function PeerAdded(s: TorrentView, peer: PeerId): (s': TorrentView)
    ensures s.Consistent() ==> s'.Consistent()
    ensures s'.peers.Keys == s.peers.Keys + {peer}
  {
    if peer in s.peers then s else s.(peers := s.peers[peer := PeerFlags(false, false)])
  }

  function ChokeSet(s: TorrentView, peer: PeerId, choked: bool): (s': TorrentView)
    ensures s.Consistent() ==> s'.Consistent()
  {
    PeerAdded(s, peer).(notChoking := if choked then s.notChoking - {peer} else s.notChoking + {peer})
  }

  function InterestSet(s: TorrentView, peer: PeerId, interested: bool): (s': TorrentView)
    ensures s.Consistent() ==> s'.Consistent()
  {
    PeerAdded(s, peer).(interested := if interested then s.interested + {peer} else s.interested - {peer})
  }

  function AllAdded(m: PieceMap, peer: PeerId, pieces: seq<nat>): (m': PieceMap)
    ensures forall q, p :: m'.Has(q, p) <==> m.Has(q, p) || (q == peer && p in pieces)
    ensures m.Inverse() ==> m'.Inverse()
  {
    if pieces == [] then m
    else
      assert pieces == pieces[..|pieces| - 1] + [pieces[|pieces| - 1]];
      PieceAdded(AllAdded(m, peer, pieces[..|pieces| - 1]), peer, pieces[|pieces| - 1])
  }

  /** `add_pieces_for_peer`; the answer is the new interest, when it changed. */
  function PiecesAdded(s: TorrentView, peer: PeerId, pieces: seq<nat>): (r: (TorrentView, Option<bool>))
    ensures s.Consistent() ==> r.0.Consistent()
  {
    var added := PeerAdded(s, peer);
    var s' := added.(pieceMap := AllAdded(s.pieceMap, peer, pieces));
    if added.InterestedIn(peer) == s'.InterestedIn(peer) then (s', None)
    else
      (s'.(peers := s'.peers[peer := s'.peers[peer].(interested := s'.InterestedIn(peer))]), Some(s'.InterestedIn(peer)))
  }

  /** Learning of pieces never ends our interest: the only change announced is that it begins. */
  lemma InterestOnlyBegins(s: TorrentView, peer: PeerId, pieces: seq<nat>)
    ensures PiecesAdded(s, peer, pieces).1 ==
              if !s.InterestedIn(peer) && exists p :: p in pieces && p in s.tracker.notStarted then Some(true) else None
  {
    var m := AllAdded(s.pieceMap, peer, pieces);
    forall p ensures p in m.PiecesOf(peer) <==> p in s.pieceMap.PiecesOf(peer) || p in pieces {
      assert m.Has(peer, p) <==> s.pieceMap.Has(peer, p) || p in pieces;
    }
    var s' := PeerAdded(s, peer).(pieceMap := m);
    if p :| p in pieces && p in s.tracker.notStarted {
      assert p in s'.tracker.notStarted * m.PiecesOf(peer);
    }
    if s.InterestedIn(peer) {
      var p :| p in s.tracker.notStarted * s.pieceMap.PiecesOf(peer);
      assert p in s'.tracker.notStarted * m.PiecesOf(peer);
    } else if s'.InterestedIn(peer) {
      var p :| p in s'.tracker.notStarted * m.PiecesOf(peer);
      assert p in pieces by {
        assert p !in s.tracker.notStarted * s.pieceMap.PiecesOf(peer);
      }
    }
  }

  function PeerGone(s: TorrentView, peer: PeerId): (s': TorrentView)
    ensures s.Consistent() ==> s'.Consistent()
  {
    s.(peers := s.peers - {peer}, interested := s.interested - {peer}, notChoking := s.notChoking - {peer},
    pieceMap := PeerRemoved(s.pieceMap, peer))
  }
}
