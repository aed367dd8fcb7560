/**
 The download engine as a state machine: the atomic steps of `TorrentProcessor`
 (src/peer/state/mod.rs) between lock acquisitions, in any interleaving.

 Handling a `Piece` message is two steps, because the lock is taken only after the block
 was written: `WriteBlock` leaves an entry in `pending`, and `Commit` picks any of them.
 Parameters of actions stand for what the source leaves to chance: hash set order, clock
 readings, and which sends fail. The state also records what was written and announced.
 */
module Engine {
  import opened Common
  import opened Torrents
  import opened SliceTracking
  import opened Storage
  import opened Blocks
  import opened Tracker
  import opened Assignments
  import opened PeerState
  import BitField
  import FileIo
  import MemoryIo

  datatype Config = Config(setup: Setup, sha1: Hash, useFile: bool) {
    function T(): Torrent {
      setup.torrent
    }
  }

  // ------------------------------------------------------------------ storage of either kind

  datatype Io = File(file: FileIo.FileState) | Memory(memory: MemoryIo.MemoryState) {
    function SlicesOf(): seq<seq<Slice>> {
      if File? then file.slices else memory.slices
    }
  }

  ghost predicate IoOk(c: Config, io: Io)
    requires c.T().Valid()
  {
    && io.File? == c.useFile
    && (io.File? ==> FileIo.WellFormed(c.T(), io.file))
    && (io.Memory? ==> MemoryIo.WellFormed(c.T(), io.memory))
  }

  function NewIo(c: Config): Io
    requires c.T().Valid()
  {
    if c.useFile then File(FileIo.Empty(c.T())) else Memory(MemoryIo.Empty(c.T()))
  }

  function IoWrite(c: Config, io: Io, w: Write): (r: (Io, Result<bool>))
    requires c.T().Valid() && IoOk(c, io)
    ensures IoOk(c, r.0)
  {
    match io
    case File(f) =>
      var (f', r) := FileIo.Written(c.T(), c.sha1, f, w.index, w.begin, w.block); (File(f'), r)
    case Memory(m) =>
      var (m', r) := MemoryIo.Written(c.T(), m, w.index, w.begin, w.block); (Memory(m'), r)
  }

  /** The bytes of the block reach the storage. */
  predicate Accepts(c: Config, io: Io, w: Write)
    requires c.T().Valid()
  {
    match io
    case File(f) => FileIo.Refusal(c.T(), f, w.index, w.begin, |w.block|).None?
    case Memory(m) => MemoryIo.Refusal(c.T(), w.index, w.begin, |w.block|).None?
  }

  // ------------------------------------------------------------------ states and steps

  /** A written block whose handler has yet to take the lock. */
  datatype Pending = Pending(index: nat, begin: nat, finished: bool)

  datatype EngineState = EngineState(
    view: TorrentView,
    io: Io,
    pending: seq<Pending>,
    toAnnounce: set<nat>,
    connected: set<PeerId>,
    accepted: seq<Write>,
    haves: set<nat>,
    bitfields: seq<seq<bv8>>)

  datatype Action =
    | Connect(peer: PeerId)
    | PeerChokes(peer: PeerId, choked: bool)
    | PeerInterested(peer: PeerId, interested: bool)
    | PeerHave(peer: PeerId, piece: nat)
    | PeerBitField(peer: PeerId, bitfield: seq<bv8>)
    | WriteBlock(write: Write)
    | Commit(which: nat, now: nat)
    | Announce(piece: nat)
    | Dispatch(supply: Supply, failing: set<nat>, now: nat)
    | Tick(now: nat)
    | Close(peer: PeerId)
    | Prune(peers: set<PeerId>)

  function Initial(c: Config): EngineState
    requires c.T().Valid()
  {
    EngineState(NewState(Fresh(c.setup.maxOutstanding, c.setup.timeout, c.T().Pieces())), NewIo(c), [], {}, {}, [], {}, [])
  }

  ghost predicate Sane(c: Config, e: EngineState)
    requires c.T().Valid()
  {
    Inv(c.T(), e.view.tracker) && e.view.Consistent() && IoOk(c, e.io)
  }

  predicate Enabled(e: EngineState, a: Action) {
    match a
    case Commit(i, _) => i < |e.pending|
    case Announce(piece) => piece in e.toAnnounce
    case Dispatch(supply, _, _) => supply.Valid() && supply.peers == e.view.PieceIdToPeers()
    case _ => true
  }

  /** The requests of a dispatch, before any is sent. */
  function Requests(c: Config, e: EngineState, supply: Supply): seq<Request>
    requires c.T().Valid() && e.view.tracker.WithinCapacity() && supply.Valid()
  {
    Generated(c.T(), e.view.tracker, supply, supply.Pieces()).1
  }

  /** A request is sent when there is a channel to its peer and sending does not fail. */
  predicate IsSent(e: EngineState, rs: seq<Request>, failing: set<nat>, i: nat)
    requires i < |rs|
  {
    rs[i].peer in e.connected && i !in failing
  }

  /** `remove_request` for the requests that could not be sent. */
  function Withdrawals(e: EngineState, rs: seq<Request>, failing: set<nat>, n: nat, now: nat): seq<Event>
    requires n <= |rs|
  {
    if n == 0 then []
    else Withdrawals(e, rs, failing, n - 1, now)
         + if IsSent(e, rs, failing, n - 1) then [] else [Event(now, RemoveRequest(rs[n - 1].Block()))]
  }

  /** What an action does to the tracker, as tracker events. */
  function TrackerEvents(c: Config, e: EngineState, a: Action): seq<Event>
    requires c.T().Valid() && e.view.tracker.WithinCapacity() && Enabled(e, a)
  {
    match a
    case Commit(i, now) =>
      var p := e.pending[i];
      [Event(now, if p.finished then FinishPiece(p.index) else FinishRequest(Key(p.index, p.begin)))]
    case Dispatch(supply, failing, now) =>
      var rs := Requests(c, e, supply);
      AssignEvents(supply, supply.Pieces()) + Withdrawals(e, rs, failing, |rs|, now)
    case Tick(now) => [Event(now, Expire)]
    case _ => []
  }

  ghost function Applied(t: Torrent, s: State, es: seq<Event>): (s': State)
    requires t.Valid() && Inv(t, s)
    ensures Inv(t, s')
  {
    if es == [] then s
    else
      var before := Applied(t, s, es[..|es| - 1]);
      StepInv(t, before, es[|es| - 1]);
      Step(t, before, es[|es| - 1])
  }

  ghost function Next(c: Config, e: EngineState, a: Action): (e': EngineState)
    requires c.T().Valid() && Sane(c, e)
    ensures Sane(c, e')
  {
    if !Enabled(e, a) then e
    else
      var view := e.view.(tracker := Applied(c.T(), e.view.tracker, TrackerEvents(c, e, a)));
      match a
      case Connect(peer) =>
        e.(connected := e.connected + {peer}, bitfields := e.bitfields + [BitField.Packed(e.view.tracker.completed, c.T().Pieces())])
      case PeerChokes(peer, choked) => e.(view := ChokeSet(e.view, peer, choked))
      case PeerInterested(peer, interested) => e.(view := InterestSet(e.view, peer, interested))
      case PeerHave(peer, piece) => e.(view := PiecesAdded(e.view, peer, [piece]).0)
      case PeerBitField(peer, bitfield) => e.(view := PiecesAdded(e.view, peer, InOrder(BitField.SetBits(bitfield))).0)
      case WriteBlock(w) =>
        var (io, r) := IoWrite(c, e.io, w);
        e.(io := io,
           accepted := if Accepts(c, e.io, w) then e.accepted + [w] else e.accepted,
           pending := if r.Ok? then e.pending + [Pending(w.index, w.begin, r.value)] else e.pending)
      case Commit(i, _) =>
        var p := e.pending[i];
        e.(view := view,
           pending := e.pending[..i] + e.pending[i + 1..],
           toAnnounce := if p.finished then e.toAnnounce + {p.index} else e.toAnnounce)
      case Announce(piece) => e.(haves := e.haves + {piece})
      case Dispatch(_, _, _) => e.(view := view)
      case Tick(_) => e.(view := view)
      case Close(peer) => e.(view := PeerGone(e.view, peer), connected := e.connected - {peer})
      case Prune(peers) => e.(connected := e.connected - peers)
  }

  /** The state after any run of actions. */
  ghost function Reach(c: Config, run: seq<Action>): (e: EngineState)
    requires c.T().Valid()
    ensures Sane(c, e)
  {
    if run == [] then Initial(c) else Next(c, Reach(c, run[..|run| - 1]), run[|run| - 1])
  }
}
