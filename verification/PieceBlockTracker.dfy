/**
 The tracker of src/peer/state/piece.rs as the source has it: an object whose methods
 update its fields. Every method is proved to compute the operation of module `Tracker`
 or `Assignments` that stands for it, and to keep `Valid`.
 */
module PieceBlockTracking {
  import opened Common
  import opened Torrents
  import opened Blocks
  import opened Tracker
  import opened Assignments

  class PieceBlockTracker {
    const torrent: Torrent
    const maxOutstanding: nat
    const timeout: nat
    var notStarted: set<nat>
    var downloading: RequestMap
    var done: RequestMap
    var expirations: seq<Expiration>
    var completed: set<nat>

    ghost function Value(): State
      reads this
    {
      State(maxOutstanding, timeout, notStarted, downloading, done, expirations, completed)
    }

    ghost predicate Valid()
      reads this
    {
      torrent.Valid() && Inv(torrent, Value())
    }

    constructor (torrent: Torrent, maxOutstanding: nat, timeout: nat)
      requires torrent.Valid()
      ensures Valid() && this.torrent == torrent
      ensures Value() == Fresh(maxOutstanding, timeout, torrent.Pieces())
    {
      this.torrent, this.maxOutstanding, this.timeout := torrent, maxOutstanding, timeout;
      notStarted := Upto(torrent.Pieces());
      downloading, done, expirations, completed := map[], map[], [], {};
    }

    /** Started or not started pieces, in no particular order. */
    method GetIncompletePieces() returns (pieces: set<nat>)
      ensures pieces == Value().Incomplete()
    {
      pieces := downloading.Keys + done.Keys + notStarted;
    }

    /** Adds up the sizes of the inner maps; that is the number of blocks in flight. */
    method DownloadingRequestsLen() returns (n: nat)
      ensures n == |Keys(downloading)|
    {
      n := 0;
      var left := downloading.Keys;
      ghost var counted: set<Key> := {};
      while left != {}
        invariant left <= downloading.Keys
        invariant forall k :: k in counted <==> Holds(downloading, k) && k.piece !in left
        invariant n == |counted|
        decreases |left|
      {
        var p :| p in left;
        ghost var here := set b | b in downloading[p] :: Key(p, b);
        KeysOfPiece(p, downloading[p].Keys);
        assert here !! counted;
        counted := counted + here;
        n := n + |downloading[p]|;
        left := left - {p};
      }
      assert counted == Keys(downloading);
    }

    /** Answers whether the piece has an entry, whether or not the block was in flight. */
    method RemoveRequest(k: Key) returns (found: bool)
      requires Valid()
      modifies this
      ensures Valid()
      ensures Value() == old(RequestRemoved(Value(), k))
      ensures found <==> k.piece in old(downloading)
    {
      StepInv(torrent, Value(), Event(0, Op.RemoveRequest(k)));
      found := k.piece in downloading;
      if found {
        downloading := downloading[k.piece := downloading[k.piece] - {k.begin}];
      }
    }

    method SetRequestFinished(k: Key) returns (found: bool)
      requires Valid()
      modifies this
      ensures Valid()
      ensures Value() == old(RequestFinished(Value(), k))
      ensures found <==> old(Holds(downloading, k))
    {
      StepInv(torrent, Value(), Event(0, FinishRequest(k)));
      if k.piece !in downloading {
        return false;
      }
      var requests: map<nat, Request> := downloading[k.piece];
      if k.begin !in requests {
        return false;
      }
      var download := requests[k.begin];
      requests := requests - {k.begin};
      downloading := downloading[k.piece := requests];
      var finished: map<nat, Request> := if k.piece in done then done[k.piece] else map[];
      finished := finished[k.begin := download];
      done := done[k.piece := finished];
      return true;
    }

    method SetPieceFinished(piece: nat)
      requires Valid()
      modifies this
      ensures Valid()
      ensures Value() == old(PieceFinished(Value(), piece))
    {
      StepInv(torrent, Value(), Event(0, FinishPiece(piece)));
      downloading := downloading - {piece};
      done := done - {piece};
      completed := completed + {piece};
    }

    /** Pops entries until one is young enough, which goes back to the front. */
    method RemoveExpired(now: nat) returns (expired: seq<Request>)
      requires Valid()
      modifies this
      ensures Valid()
      ensures Value() == old(Expired(Value(), now))
      ensures expired == old(ExpiredRequests(Value(), now))
    {
      hide Inv, Aged, Swept;
      ghost var was := Value();
      StepInv(torrent, was, Event(now, Expire));
      SweptNone(downloading, expirations);
      ghost var n := 0;
      expired := [];
      var checking := true;
      while checking && expirations != []
        invariant 0 <= n <= |was.expirations|
        invariant expirations == was.expirations[n..]
        invariant (downloading, expired) == Swept(was.downloading, was.expirations[..n])
        invariant forall i :: 0 <= i < n ==> Lived(was.expirations[i], now) >= timeout
        invariant !checking ==> expirations != [] && Lived(expirations[0], now) < timeout
        invariant Value() == was.(downloading := downloading, expirations := expirations)
        decreases checking, |expirations|
      {
        var entry := expirations[0];
        expirations := expirations[1..];
        var livedTime := if now < entry.at then 0 else now - entry.at;
        if livedTime >= timeout {
          SweptOne(was.downloading, was.expirations, n);
          n := n + 1;
          if entry.key.piece in downloading && entry.key.begin in downloading[entry.key.piece] {
            expired := expired + [downloading[entry.key.piece][entry.key.begin]];
            downloading := downloading[entry.key.piece := downloading[entry.key.piece] - {entry.key.begin}];
          }
        } else {
          expirations := [entry] + expirations;
          checking := false;
        }
      }
      AgedIs(was.expirations, now, timeout, n);
    }

    method Insert(started: nat, r: Request)
      modifies this
      ensures Value() == old(Value()).(downloading := Put(old(downloading), r.Block(), r),
                                       expirations := old(expirations) + [Expiration(started, r.Block())])
    {
      expirations := expirations + [Expiration(started, r.Block())];
      var blocks: map<nat, Request> := if r.index in downloading then downloading[r.index] else map[];
      blocks := blocks[r.begin := r];
      downloading := downloading[r.index := blocks];
    }

    method InsertAll(started: nat, requests: seq<Request>)
      modifies this
      ensures Value() == old(Value()).(downloading := PutAll(old(downloading), requests),
                                       expirations := old(expirations) + Entries(requests, started))
    {
      ghost var was := Value();
      assert was.expirations + Entries(requests[..0], started) == was.expirations;
      for i := 0 to |requests|
        invariant Value() == was.(downloading := PutAll(was.downloading, requests[..i]),
                                  expirations := was.expirations + Entries(requests[..i], started))
      {
        assert requests[..i + 1][..i] == requests[..i];
        assert Entries(requests[..i + 1], started) ==
               Entries(requests[..i], started) + [Expiration(started, requests[i].Block())];
        Insert(started, requests[i]);
      }
      assert requests[..|requests|] == requests;
    }

    method AssignPiece(piece: nat, peer: Option<PeerId>, now: nat) returns (requests: seq<Request>)
      requires Valid()
      modifies this
      ensures Valid()
      ensures Value() == old(Assigned(torrent, Value(), piece, peer, now))
      ensures requests == old(AssignedRequests(torrent, Value(), piece, peer))
    {
      hide Inv, Plan, Entries, PutAll, RequestsFor, Keys;
      ghost var was := Value();
      InvDisjoint(torrent, was);
      AssignInv(torrent, was, piece, peer, now);
      var inFlight := DownloadingRequestsLen();
      var capacity := maxOutstanding - inFlight;
      var allocation, _ := NewAllocation(torrent, piece, peer, Keys(downloading) + Keys(done), capacity);
      if allocation.None? {
        NothingRecorded(was, piece, now);
        return [];
      }
      requests := allocation.value;
      if requests != [] {
        notStarted := notStarted - {piece};
      }
      InsertAll(now, requests);
    }

    method GenerateAssignments(a: Supply) returns (requests: seq<Request>)
      requires Valid() && a.Valid()
      modifies this
      ensures Valid()
      ensures (Value(), requests) == old(Generated(torrent, Value(), a, a.Pieces()))
      ensures Greedy(torrent, old(Value()), a, a.Pieces(), Value(), requests)
    {
      hide Inv, Generated, Greedy, InOrder;
      ghost var was := Value();
      InvDisjoint(torrent, was);
      GeneratesGreedily(torrent, was, a, a.Pieces());
      GeneratedNone(torrent, was, a);
      requests := [];
      var pieces := a.Pieces();
      for i := 0 to |pieces|
        invariant Valid()
        invariant (Value(), requests) == Generated(torrent, was, a, pieces[..i])
      {
        assert pieces[..i + 1] == pieces[..i] + [pieces[i]];
        GeneratedMore(torrent, was, a, pieces[..i], pieces[i]);
        var more := AssignPiece(pieces[i], a.First(pieces[i]), a.clock[pieces[i]]);
        requests := requests + more;
      }
      assert pieces[..|pieces|] == pieces;
    }
  }

  lemma NothingRecorded(s: State, piece: nat, now: nat)
    ensures Recorded(s, piece, [], now) == s
  {
    assert Entries([], now) == [] && s.expirations + [] == s.expirations;
  }

  lemma GeneratedNone(t: Torrent, s: State, a: Supply)
    requires t.Valid() && s.WithinCapacity() && a.Valid()
    ensures Generated(t, s, a, []) == (s, [])
  {
  }

  lemma {:induction false} KeysOfPiece(p: nat, bs: set<nat>)
    ensures |set b | b in bs :: Key(p, b)| == |bs|
  {
    if bs != {} {
      var b :| b in bs;
      KeysOfPiece(p, bs - {b});
      assert (set b | b in bs :: Key(p, b)) == (set c | c in bs - {b} :: Key(p, c)) + {Key(p, b)};
    }
  }

  lemma SweptNone(m: RequestMap, q: seq<Expiration>)
    ensures Swept(m, q[..0]) == (m, [])
  {
  }

  lemma SweptOne(m: RequestMap, q: seq<Expiration>, n: nat)
    requires n < |q|
    ensures var (m', acc) := Swept(m, q[..n]); var k := q[n].key;
            Swept(m, q[..n + 1]) == if Holds(m', k) then (Drop(m', k), acc + [Lookup(m', k)]) else (m', acc)
  {
    assert q[..n + 1][..n] == q[..n];
  }

  lemma {:induction false} AgedIs(q: seq<Expiration>, now: nat, ttl: nat, n: nat)
    requires n <= |q|
    requires forall i :: 0 <= i < n ==> Lived(q[i], now) >= ttl
    requires n < |q| ==> Lived(q[n], now) < ttl
    ensures n == Aged(q, now, ttl)
  {
    if n > 0 {
      AgedIs(q[1..], now, ttl, n - 1);
    }
  }
}
