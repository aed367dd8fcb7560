/** `TorrentState` of src/peer/state/mod.rs as an object, proved against module `PeerState`. */
module TorrentStates {
  import opened Common
  import opened Torrents
  import opened Tracker
  import opened PeerState
  import opened PieceBlockTracking

  class TorrentState {
    const pieceBlockTracking: PieceBlockTracker
    const blockPeerMap: PeerPieceMap
    var peersInterested: set<PeerId>
    var peersNotChoking: set<PeerId>
    var peers: map<PeerId, PeerFlags>

    ghost function Value(): TorrentView
      reads this, pieceBlockTracking, blockPeerMap
    {
      TorrentView(pieceBlockTracking.Value(), peersInterested, peersNotChoking, blockPeerMap.Value(), peers)
    }

    ghost predicate Valid()
      reads this, pieceBlockTracking, blockPeerMap
    {
      pieceBlockTracking.Valid() && Value().Consistent()
    }

    constructor (torrent: Torrent, maxOutstanding: nat, timeout: nat)
      requires torrent.Valid()
      ensures Valid() && fresh(pieceBlockTracking) && fresh(blockPeerMap)
      ensures Value() == NewState(Fresh(maxOutstanding, timeout, torrent.Pieces()))
    {
      pieceBlockTracking := new PieceBlockTracker(torrent, maxOutstanding, timeout);
      blockPeerMap := new PeerPieceMap();
      peersInterested, peersNotChoking, peers := {}, {}, map[];
    }

    method AddPeerId(peer: PeerId)
      requires Valid()
      modifies this
      ensures Valid() && Value() == PeerAdded(old(Value()), peer)
    {
      if peer !in peers {
        peers := peers[peer := PeerFlags(false, false)];
      }
    }

    method SetPeerChokedUs(peer: PeerId, choked: bool)
      requires Valid()
      modifies this
      ensures Valid() && Value() == ChokeSet(old(Value()), peer, choked)
    {
      AddPeerId(peer);
      if !choked {
        peersNotChoking := peersNotChoking + {peer};
      } else {
        peersNotChoking := peersNotChoking - {peer};
      }
    }

    method SetPeersInterestedInUs(peer: PeerId, interested: bool)
      requires Valid()
      modifies this
      ensures Valid() && Value() == InterestSet(old(Value()), peer, interested)
    {
      AddPeerId(peer);
      if interested {
        peersInterested := peersInterested + {peer};
      } else {
        peersInterested := peersInterested - {peer};
      }
    }

    /** Our interest in the peer, when learning of these pieces changed it. */
    method AddPiecesForPeer(peer: PeerId, pieces: seq<nat>) returns (change: Option<bool>)
      requires Valid()
      modifies this, blockPeerMap
      ensures Valid() && (Value(), change) == PiecesAdded(old(Value()), peer, pieces)
    {
      hide Inv, Keys, PieceAdded;
      ghost var was := Value();
      AddPeerId(peer);
      var wanted := blockPeerMap.PeerInterest(peer, pieceBlockTracking.notStarted);
      var prevInterest := wanted != {};
      for i := 0 to |pieces|
        invariant Value() == PeerAdded(was, peer).(pieceMap := AllAdded(was.pieceMap, peer, pieces[..i]))
        invariant pieceBlockTracking.Valid()
      {
        assert pieces[..i + 1][..i] == pieces[..i];
        blockPeerMap.AddPiece(peer, pieces[i]);
      }
      assert pieces[..|pieces|] == pieces;
      wanted := blockPeerMap.PeerInterest(peer, pieceBlockTracking.notStarted);
      var interest := wanted != {};
      if prevInterest != interest {
        peers := peers[peer := peers[peer].(interested := interest)];
        change := Some(interest);
      } else {
        change := None;
      }
    }

    method PeersThatChoke(choke: bool) returns (ps: set<PeerId>)
      ensures ps == Value().PeersThatChoke(choke)
    {
      if choke {
        ps := peers.Keys - peersNotChoking;
      } else {
        ps := peers.Keys * peersNotChoking;
      }
    }

    /** Incomplete pieces with the peers that have them and do not choke us; each can be asked for the piece. */
    method PieceIdToPeers() returns (m: map<nat, set<PeerId>>)
      ensures m == Value().PieceIdToPeers()
    {
      hide Inv, Keys, State.Incomplete, State.Started, PieceMap.PeersWith;
      ghost var pieceMap := blockPeerMap.Value();
      var downloadFrom := PeersThatChoke(false);
      var incomplete := pieceBlockTracking.GetIncompletePieces();
      m := map[];
      var left := incomplete;
      while left != {}
        invariant left <= incomplete && m.Keys == incomplete - left
        invariant blockPeerMap.Value() == pieceMap
        invariant forall p :: p in m ==> m[p] == downloadFrom * pieceMap.PeersWith(p)
        decreases |left|
      {
        var piece :| piece in left;
        var withPiece := blockPeerMap.GetPeersWithPiece(piece);
        m := m[piece := downloadFrom * withPiece];
        left := left - {piece};
      }
      OfferedExactly(Value(), m);
    }

    method RemovePeer(peer: PeerId)
      requires Valid()
      modifies this, blockPeerMap
      ensures Valid() && Value() == PeerGone(old(Value()), peer)
    {
      hide Inv, Keys;
      AddPeerId(peer);
      peers := peers - {peer};
      peersInterested := peersInterested - {peer};
      peersNotChoking := peersNotChoking - {peer};
      blockPeerMap.RemovePeer(peer);
    }
  }
}
