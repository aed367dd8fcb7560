/**
 Repeating "ask, then acknowledge everything" with all pieces on offer: the rounds go
 through the blocks of the torrent in order, `maxOutstanding` at a time.
 */
module Rounds {
  import opened Common
  import opened Torrents
  import opened Blocks
  import opened Tracker
  import opened Assignments

  /** The blocks of the pieces `ps`, piece by piece. */
  function AllBlocks(t: Torrent, ps: seq<nat>): seq<Key>
    requires t.Valid()
  {
    if ps == [] then [] else AllBlocks(t, ps[..|ps| - 1]) + PieceKeys(t, ps[|ps| - 1])
  }

  function TorrentBlocks(t: Torrent): seq<Key>
    requires t.Valid()
  {
    AllBlocks(t, InOrder(Upto(t.Pieces())))
  }

  /** Every piece of the torrent is offered by some peer. */
  ghost predicate Full(t: Torrent, a: Supply) {
    a.Valid() && a.peers.Keys == Upto(t.Pieces()) && forall p :: p in a.peers ==> a.peers[p] != {}
  }

  lemma {:induction false} WantedOfAll(t: Torrent, busy: set<Key>, a: Supply, ps: seq<nat>)
    requires t.Valid() && forall p :: p in ps ==> p in a.peers && a.peers[p] != {}
    ensures Wanted(t, busy, a, ps) == Without(AllBlocks(t, ps), busy)
  {
    if ps != [] {
      var front, p := ps[..|ps| - 1], ps[|ps| - 1];
      WantedOfAll(t, busy, a, front);
      WithoutConcat(AllBlocks(t, front), PieceKeys(t, p), busy);
    }
  }

  lemma AscendDistinct(ks: seq<Key>)
    requires KeysAscend(ks)
    ensures Distinct(ks)
  {
    forall i, j | 0 <= i < j < |ks| ensures ks[i] != ks[j] {
      assert Before(ks[i], ks[j]);
    }
  }

  /** Piece by piece in ascending order, the blocks ascend. */
  lemma {:induction false} AllBlocksAscend(t: Torrent, ps: seq<nat>)
    requires t.Valid() && Ascending(ps)
    ensures KeysAscend(AllBlocks(t, ps))
    ensures forall k :: k in AllBlocks(t, ps) <==> k.piece in ps && IsBlock(t, k)
  {
    hide Ascending, KeysAscend, IsBlock, KeysFrom;
    if ps == [] {
      NothingAscends();
    } else {
      var front, p := ps[..|ps| - 1], ps[|ps| - 1];
      LastSplit(ps);
      AscendingFront(front, p);
      AllBlocksAscend(t, front);
      PieceKeysAscend(t, p);
      AscendConcat(AllBlocks(t, front), PieceKeys(t, p));
    }
  }

  /** The blocks of the torrent: each once. */
  lemma TorrentBlocksDistinct(t: Torrent)
    requires t.Valid()
    ensures Distinct(TorrentBlocks(t))
  {
    AllBlocksAscend(t, InOrder(Upto(t.Pieces())));
    AscendDistinct(TorrentBlocks(t));
  }

  lemma {:induction false} GeneratedKeys(t: Torrent, s: State, a: Supply, ps: seq<nat>)
    requires t.Valid() && s.WithinCapacity() && a.Valid() && forall p :: p in ps ==> p in a.peers
    ensures var (s', rs) := Generated(t, s, a, ps);
            && Keys(s'.downloading) == Keys(s.downloading) + Elements(KeysOf(rs))
            && s'.done == s.done
            && s'.maxOutstanding == s.maxOutstanding
  {
    if ps == [] {
    } else {
      var front, p := ps[..|ps| - 1], ps[|ps| - 1];
      GeneratedKeys(t, s, a, front);
      var (s', rs) := Generated(t, s, a, front);
      AssignAddsKeys(t, s', p, a.First(p), a.clock[p]);
      ElementsOfConcat(rs, AssignedRequests(t, s', p, a.First(p)));
      AssignedRequestKeys(t, s', p, a.First(p));
      UnionAssoc(Keys(s.downloading), Elements(KeysOf(rs)), Elements(AssignedKeys(t, s', p, a.First(p))));
    }
  }

  lemma AssignedRequestKeys(t: Torrent, s: State, p: nat, peer: Option<PeerId>)
    requires t.Valid() && s.WithinCapacity()
    ensures KeysOf(AssignedRequests(t, s, p, peer)) == AssignedKeys(t, s, p, peer)
  {
  }

  /** `set_request_finished` for each of the blocks. */
  function Acknowledged(s: State, ks: seq<Key>): State {
    if ks == [] then s else RequestFinished(Acknowledged(s, ks[..|ks| - 1]), ks[|ks| - 1])
  }

  lemma FinishedKeys(s: State, k: Key)
    requires k in Keys(s.downloading)
    ensures Keys(RequestFinished(s, k).downloading) == Keys(s.downloading) - {k}
    ensures Keys(RequestFinished(s, k).done) == Keys(s.done) + {k}
  {
  }

  lemma {:induction false} AcknowledgedKeys(s: State, ks: seq<Key>)
    requires Distinct(ks) && forall k :: k in ks ==> k in Keys(s.downloading)
    ensures Keys(Acknowledged(s, ks).downloading) == Keys(s.downloading) - Elements(ks)
    ensures Keys(Acknowledged(s, ks).done) == Keys(s.done) + Elements(ks)
    ensures Acknowledged(s, ks).maxOutstanding == s.maxOutstanding
  {
    if ks != [] {
      hide Keys;
      var front, k := ks[..|ks| - 1], ks[|ks| - 1];
      assert ks == front + [k] && k !in front;
      assert Elements(ks) == Elements(front) + {k};
      AcknowledgedKeys(s, front);
      FinishedKeys(Acknowledged(s, front), k);
    }
  }

  /** A new tracker after rounds of asking for blocks and acknowledging all of them. */
  ghost function AfterRounds(t: Torrent, maxOutstanding: nat, timeout: nat, rounds: seq<Supply>): (s: State)
    requires t.Valid() && forall a :: a in rounds ==> Full(t, a)
    ensures Keys(s.downloading) == {} && s.maxOutstanding == maxOutstanding
  {
    if rounds == [] then Fresh(maxOutstanding, timeout, t.Pieces())
    else
      var s := AfterRounds(t, maxOutstanding, timeout, rounds[..|rounds| - 1]);
      RoundEnds(t, s, rounds[|rounds| - 1]);
      RoundFrom(t, s, rounds[|rounds| - 1])
  }

  ghost function RoundFrom(t: Torrent, s: State, a: Supply): State
    requires t.Valid() && s.WithinCapacity() && Full(t, a)
  {
    var (s', rs) := Generated(t, s, a, a.Pieces());
    Acknowledged(s', KeysOf(rs))
  }

  /** What a round asks for: the first blocks that are not done. */
  lemma RoundAsks(t: Torrent, s: State, a: Supply)
    requires t.Valid() && Full(t, a) && Keys(s.downloading) == {}
    ensures KeysOf(Generated(t, s, a, a.Pieces()).1) == Take(s.maxOutstanding, Without(TorrentBlocks(t), Keys(s.done)))
  {
    hide Generated, Wanted, Keys, AllBlocks, KeysOf;
    var ps := a.Pieces();
    assert s.Busy() == Keys(s.done);
    WantedOfAll(t, Keys(s.done), a, ps);
    GeneratesGreedily(t, s, a, ps);
  }

  lemma RoundDistinct(t: Torrent, n: nat, busy: set<Key>)
    requires t.Valid()
    ensures Distinct(Take(n, Without(TorrentBlocks(t), busy)))
  {
    hide TorrentBlocks;
    TorrentBlocksDistinct(t);
    WithoutDistinct(TorrentBlocks(t), busy);
  }

  lemma RoundEnds(t: Torrent, s: State, a: Supply)
    requires t.Valid() && Full(t, a) && Keys(s.downloading) == {}
    ensures Keys(RoundFrom(t, s, a).downloading) == {}
    ensures RoundFrom(t, s, a).maxOutstanding == s.maxOutstanding
    ensures Keys(RoundFrom(t, s, a).done) == Keys(s.done) + Elements(KeysOf(Generated(t, s, a, a.Pieces()).1))
  {
    hide Generated, Acknowledged, KeysOf;
    var (s', rs) := Generated(t, s, a, a.Pieces());
    GeneratedKeys(t, s, a, a.Pieces());
    assert Keys(s'.downloading) == Elements(KeysOf(rs));
    RoundAsks(t, s, a);
    RoundDistinct(t, s.maxOutstanding, Keys(s.done));
    AcknowledgedKeys(s', KeysOf(rs));
  }

  function Min(a: nat, b: nat): (m: nat)
    ensures m <= a && m <= b
  {
    if a < b then a else b
  }

  /** How many of `total` blocks `r` rounds get through. */
  function Reached(r: nat, max: nat, total: nat): (n: nat)
    ensures n <= total
  {
    Min(r * max, total)
  }

  lemma ReachedNext(r: nat, max: nat, total: nat)
    ensures Reached(r + 1, max, total) == Min(Reached(r, max, total) + max, total)
  {
    MulNext(r, max);
  }

  /** The part of `all` that round `r` gets through. */
  function Chunk(all: seq<Key>, r: nat, max: nat): seq<Key> {
    ReachedNext(r, max, |all|);
    all[Reached(r, max, |all|)..Reached(r + 1, max, |all|)]
  }

  lemma PrefixMore<T>(s: seq<T>, n: nat, m: nat)
    requires n <= m <= |s|
    ensures s[..m] == s[..n] + s[n..m]
    ensures s[n..][..m - n] == s[n..m]
  {
  }

  lemma ElementsConcat(a: seq<Key>, b: seq<Key>)
    ensures Elements(a + b) == Elements(a) + Elements(b)
  {
  }

  /** Taking the next `max` of distinct keys after the first `n`. */
  lemma NextSlice(all: seq<Key>, n: nat, max: nat)
    requires Distinct(all) && n <= |all|
    ensures Take(max, Without(all, Elements(all[..n]))) == all[n..Min(n + max, |all|)]
    ensures Elements(all[..n]) + Elements(all[n..Min(n + max, |all|)]) == Elements(all[..Min(n + max, |all|)])
  {
    WithoutPrefix(all, n);
    hide Without, Elements, Distinct;
    var m := Min(n + max, |all|);
    PrefixMore(all, n, m);
    ElementsConcat(all[..n], all[n..m]);
  }

  lemma {:induction false} RoundsDone(t: Torrent, maxOutstanding: nat, timeout: nat, rounds: seq<Supply>)
    requires t.Valid() && forall b :: b in rounds ==> Full(t, b)
    ensures var all := TorrentBlocks(t);
            Keys(AfterRounds(t, maxOutstanding, timeout, rounds).done) ==
            Elements(all[..Reached(|rounds|, maxOutstanding, |all|)])
  {
    hide Keys, Generated, Full, RoundFrom, KeysOf, TorrentBlocks, Take, Without;
    if rounds == [] {
      NoKeys();
    } else {
      var all, r := TorrentBlocks(t), |rounds| - 1;
      var front, last := rounds[..r], rounds[r];
      var s := AfterRounds(t, maxOutstanding, timeout, front);
      RoundsDone(t, maxOutstanding, timeout, front);
      RoundAsks(t, s, last);
      RoundEnds(t, s, last);
      TorrentBlocksDistinct(t);
      NextSlice(all, Reached(r, maxOutstanding, |all|), maxOutstanding);
      ReachedNext(r, maxOutstanding, |all|);
    }
  }

  /**
   When every piece is available, round `r` asks for the blocks number r * max up to
   (r + 1) * max of the torrent: every block is asked for exactly once.
   */
  lemma RoundsAskForEachBlockOnce(t: Torrent, maxOutstanding: nat, timeout: nat, rounds: seq<Supply>, a: Supply)
    requires t.Valid() && Full(t, a) && forall b :: b in rounds ==> Full(t, b)
    ensures Distinct(TorrentBlocks(t))
    ensures KeysOf(Generated(t, AfterRounds(t, maxOutstanding, timeout, rounds), a, a.Pieces()).1) ==
              Chunk(TorrentBlocks(t), |rounds|, maxOutstanding)
  {
    hide Keys, Generated, Full, KeysOf, TorrentBlocks, AfterRounds, Reached;
    var all := TorrentBlocks(t);
    TorrentBlocksDistinct(t);
    RoundsDone(t, maxOutstanding, timeout, rounds);
    RoundAsks(t, AfterRounds(t, maxOutstanding, timeout, rounds), a);
    NextSlice(all, Reached(|rounds|, maxOutstanding, |all|), maxOutstanding);
    ReachedNext(|rounds|, maxOutstanding, |all|);
  }

  lemma NoKeys()
    ensures Keys(map[]) == {} && Elements<Key>([]) == {}
  {
  }

  /** The torrent takes exactly ceil(blocks / max) rounds that ask for something. */
  lemma RoundsNeeded(t: Torrent, maxOutstanding: nat, timeout: nat, rounds: seq<Supply>, a: Supply)
    requires t.Valid() && Full(t, a) && maxOutstanding >= 1 && forall b :: b in rounds ==> Full(t, b)
    ensures Generated(t, AfterRounds(t, maxOutstanding, timeout, rounds), a, a.Pieces()).1 != [] <==>
              |rounds| < (|TorrentBlocks(t)| + maxOutstanding - 1) / maxOutstanding
  {
    hide AfterRounds, Generated, TorrentBlocks, Full;
    RoundsAskForEachBlockOnce(t, maxOutstanding, timeout, rounds, a);
    CeilingBound(|rounds|, |TorrentBlocks(t)|, maxOutstanding);
  }

  lemma CeilingBound(r: nat, total: nat, max: nat)
    requires max >= 1
    ensures r * max < total <==> r < (total + max - 1) / max
    ensures r * max < (r + 1) * max
  {
    var q, m := (total + max - 1) / max, (total + max - 1) % max;
    assert total + max - 1 == q * max + m && 0 <= m < max;
    MulNext(r, max);
    if r < q {
      MulLe(r + 1, q, max);
    } else {
      MulLe(q, r, max);
    }
  }
}
