/**
 The interval tracker `Slices` of src/peer/io/mod.rs: it records the byte ranges of a
 piece that have arrived and reports when they add up to the whole piece.

 The class follows the source step by step. `Inserted` is the value it computes, and the
 lemmas say what that value means in terms of the offsets that are covered.
 */
module SliceTracking {
  import opened Common

  /** The half-open range of offsets [start, end). */
  datatype Slice = Slice(start: nat, end: nat) {
    predicate Has(x: int) {
      start <= x < end
    }
  }

  predicate IsComplete(ss: seq<Slice>, expectedSize: nat) {
    |ss| == 1 && ss[0].start == 0 && ss[0].end == expectedSize % U32_LIMIT
  }

  /** What `binary_search_by_key` answers: the position of the key, or where it would go. */
  datatype SearchResult = Present(pos: nat) | Absent(pos: nat)

  /** The number of slices that start before `key`; their order makes it a position. */
  function Position(ss: seq<Slice>, key: nat): (p: nat)
    ensures p <= |ss|
    ensures forall i :: 0 <= i < p ==> ss[i].start < key
    ensures p < |ss| ==> key <= ss[p].start
  {
    if ss == [] || key <= ss[0].start then 0 else 1 + Position(ss[1..], key)
  }

  /** The slices after the range `s` was inserted into `ss`. */
  function Inserted(ss: seq<Slice>, s: Slice): seq<Slice> {
    var p := Position(ss, s.start);
    if p < |ss| && ss[p].start == s.start then
      ss[p := Slice(s.start, if ss[p].end < s.end then s.end else ss[p].end)]
    else
      var end := JoinedEnd(ss, s);
      if JoinsLeft(ss, s) then
        Replaced(ss, p - 1, Slice(ss[p - 1].start, end), FirstKept(ss, s))
      else
        Replaced(ss, p, Slice(s.start, end), FirstKept(ss, s))
  }

  /** One slice in the place of those from `i` up to `j`. */
  function Replaced(ss: seq<Slice>, i: nat, m: Slice, j: nat): (r: seq<Slice>)
    requires i <= j <= |ss|
    ensures |r| == |ss| - (j - i) + 1 && r[i] == m
    ensures forall k :: 0 <= k < i ==> r[k] == ss[k]
    ensures forall k :: i < k < |r| ==> r[k] == ss[k - i - 1 + j]
  {
    ss[..i] + [m] + ss[j..]
  }

  predicate HitsStart(ss: seq<Slice>, s: Slice) {
    var p := Position(ss, s.start);
    p < |ss| && ss[p].start == s.start
  }

  predicate JoinsRight(ss: seq<Slice>, s: Slice) {
    var p := Position(ss, s.start);
    p < |ss| && ss[p].start == s.end
  }

  predicate JoinsLeft(ss: seq<Slice>, s: Slice)
    ensures JoinsLeft(ss, s) ==> Position(ss, s.start) > 0
  {
    var p := Position(ss, s.start);
    p > 0 && s.start <= ss[p - 1].end
  }

  /** Where the inserted range ends once it has swallowed the slice to its right. */
  function JoinedEnd(ss: seq<Slice>, s: Slice): nat {
    if JoinsRight(ss, s) then ss[Position(ss, s.start)].end else s.end
  }

  /** The first of the slices on the right that stay as they are. */
  function FirstKept(ss: seq<Slice>, s: Slice): (p: nat)
    ensures p <= |ss|
  {
    Position(ss, s.start) + if JoinsRight(ss, s) then 1 else 0
  }

  class Slices {
    var slices: seq<Slice>
    const expectedSize: nat

    constructor (expectedSize: nat)
      ensures slices == [] && this.expectedSize == expectedSize
    {
      slices := [];
      this.expectedSize := expectedSize;
    }

    method BinarySearchByStart(key: nat) returns (r: SearchResult)
      requires Sorted(slices)
      ensures r.pos == Position(slices, key)
      ensures r.Present? <==> r.pos < |slices| && slices[r.pos].start == key
    {
      var low, high := 0, |slices|;
      while low < high
        invariant 0 <= low <= high <= |slices|
        invariant forall i :: 0 <= i < low ==> slices[i].start < key
        invariant forall i :: high <= i < |slices| ==> key < slices[i].start
      {
        var mid := low + (high - low) / 2;
        if slices[mid].start < key {
          low := mid + 1;
        } else if key < slices[mid].start {
          high := mid;
        } else {
          PositionUnique(slices, key, mid);
          return Present(mid);
        }
      }
      PositionUnique(slices, key, low);
      return Absent(low);
    }

    /** Records the arrival of `len` bytes at `begin`; answers whether the piece is complete. */
    method Insert(begin: nat, len: nat) returns (complete: bool)
      requires Sorted(slices)
      requires begin + len < U32_LIMIT
      modifies this`slices
      ensures Sorted(slices)
      ensures slices == Inserted(old(slices), Slice(begin, begin + len))
      ensures complete == IsComplete(slices, expectedSize)
    {
      hide Sorted, Replaced;
      var endPos := begin + len;
      ghost var was, s := slices, Slice(begin, endPos);
      InsertSorted(was, s);
      var found := BinarySearchByStart(begin);
      match found {
        case Present(existing) =>
          var curr := slices[existing];
          var newEnd := if curr.end < endPos then endPos else curr.end;
          slices := slices[existing := Slice(curr.start, newEnd)];
        case Absent(missing) =>
          var start, end := begin, endPos;
          var combinedRight, combinedLeft := false, false;
          if missing < |slices| {
            var lookRight := slices[missing];
            if lookRight.start == endPos {
              slices := slices[missing := Slice(begin, lookRight.end)];
              start, end := begin, lookRight.end;
              combinedRight := true;
            }
          }
          if missing > 0 {
            var lookLeft := slices[missing - 1];
            if start <= lookLeft.end {
              slices := slices[missing - 1 := Slice(lookLeft.start, end)];
              combinedLeft := true;
            }
          }
          if !combinedLeft && !combinedRight {
            slices := slices[..missing] + [Slice(start, end)] + slices[missing..];
          } else if combinedLeft && combinedRight {
            slices := slices[..missing] + slices[missing + 1..];
          }
          InsertedByUpdates(was, s);
      }
      complete := IsComplete(slices, expectedSize);
    }
  }

  /** What the trackers of several pieces hold. */
  ghost function SlicesOf(trackers: seq<Slices>): (ss: seq<seq<Slice>>)
    reads trackers
    ensures |ss| == |trackers| && forall i :: 0 <= i < |trackers| ==> ss[i] == trackers[i].slices
  {
    if trackers == [] then [] else SlicesOf(trackers[..|trackers| - 1]) + [trackers[|trackers| - 1].slices]
  }

  // ------------------------------------------------------------------ meaning

  /** The order binary search relies on. */
  ghost predicate Sorted(ss: seq<Slice>) {
    && (forall i :: 0 <= i < |ss| ==> ss[i].start <= ss[i].end)
    && (forall i, j :: 0 <= i < j < |ss| ==> ss[i].start < ss[j].start)
  }

  ghost predicate Covers(ss: seq<Slice>, x: int) {
    exists i :: 0 <= i < |ss| && ss[i].Has(x)
  }

  /** Non-empty slices in order, with a gap between any two. */
  ghost predicate Normal(ss: seq<Slice>) {
    && (forall i :: 0 <= i < |ss| ==> ss[i].start < ss[i].end)
    && (forall i, j :: 0 <= i < j < |ss| ==> ss[i].end < ss[j].start)
  }

  /** The in-place updates of the source for a range that starts where no slice does. */
  lemma InsertedByUpdates(ss: seq<Slice>, s: Slice)
    requires !HitsStart(ss, s)
    ensures var p := Position(ss, s.start);
            var grown := if JoinsRight(ss, s) then ss[p := Slice(s.start, JoinedEnd(ss, s))] else ss;
            var joined := if JoinsLeft(ss, s) then grown[p - 1 := Slice(ss[p - 1].start, JoinedEnd(ss, s))] else grown;
            Inserted(ss, s) ==
              if !JoinsLeft(ss, s) && !JoinsRight(ss, s) then ss[..p] + [s] + ss[p..]
              else if JoinsLeft(ss, s) && JoinsRight(ss, s) then joined[..p] + joined[p + 1..]
              else joined
  {
    hide Replaced;
    var p, end := Position(ss, s.start), JoinedEnd(ss, s);
    if JoinsLeft(ss, s) {
      var m := Slice(ss[p - 1].start, end);
      if JoinsRight(ss, s) {
        BothUpdates(ss, p, Slice(s.start, end), m);
      } else {
        OneUpdate(ss, p - 1, m);
      }
    } else if JoinsRight(ss, s) {
      OneUpdate(ss, p, Slice(s.start, end));
    } else {
      NoUpdate(ss, p, s);
    }
  }

  lemma OneUpdate(ss: seq<Slice>, i: nat, m: Slice)
    requires i < |ss|
    ensures Replaced(ss, i, m, i + 1) == ss[i := m]
  {
  }

  lemma BothUpdates(ss: seq<Slice>, p: nat, right: Slice, m: Slice)
    requires 0 < p < |ss|
    ensures var joined := ss[p := right][p - 1 := m]; Replaced(ss, p - 1, m, p + 1) == joined[..p] + joined[p + 1..]
  {
  }

  lemma NoUpdate(ss: seq<Slice>, p: nat, s: Slice)
    requires p <= |ss|
    ensures Replaced(ss, p, s, p) == ss[..p] + [s] + ss[p..]
  {
  }

  lemma PositionUnique(ss: seq<Slice>, key: nat, p: nat)
    requires Sorted(ss) && p <= |ss|
    requires forall i :: 0 <= i < p ==> ss[i].start < key
    requires p < |ss| ==> key <= ss[p].start
    ensures p == Position(ss, key)
  {
  }

  /** The three parts of a slice list after an insert that does not hit an existing start. */
  lemma InsertedParts(ss: seq<Slice>, s: Slice, x: int)
    requires !HitsStart(ss, s)
    ensures var p := Position(ss, s.start);
            var keep := if JoinsLeft(ss, s) then p - 1 else p;
            var from := if JoinsLeft(ss, s) then ss[p - 1].start else s.start;
            Covers(Inserted(ss, s), x) <==>
              || Covers(ss[..keep] + ss[FirstKept(ss, s)..], x)
              || Slice(from, JoinedEnd(ss, s)).Has(x)
  {
    var p := Position(ss, s.start);
    var keep := if JoinsLeft(ss, s) then p - 1 else p;
    var from := if JoinsLeft(ss, s) then ss[p - 1].start else s.start;
    var mid := Slice(from, JoinedEnd(ss, s));
    var a, b := ss[..keep], ss[FirstKept(ss, s)..];
    assert Inserted(ss, s) == a + [mid] + b;
    CoversConcat(a + [mid], b, x);
    CoversConcat(a, [mid], x);
    CoversConcat(a, b, x);
    assert Covers([mid], x) <==> mid.Has(x) by {
      assert [mid][0] == mid;
    }
  }

  lemma CoversConcat(a: seq<Slice>, b: seq<Slice>, x: int)
    ensures Covers(a + b, x) <==> Covers(a, x) || Covers(b, x)
  {
    forall i | 0 <= i < |a| && a[i].Has(x) ensures Covers(a + b, x) {
      assert (a + b)[i].Has(x);
    }
    forall i | 0 <= i < |b| && b[i].Has(x) ensures Covers(a + b, x) {
      assert (a + b)[|a| + i].Has(x);
    }
  }

  lemma CoversElement(ss: seq<Slice>, i: nat, x: int)
    requires i < |ss|
    ensures Covers(ss, x) <==> Covers(ss[..i] + ss[i + 1..], x) || ss[i].Has(x)
  {
    assert ss == ss[..i] + [ss[i]] + ss[i + 1..];
    CoversConcat(ss[..i] + [ss[i]], ss[i + 1..], x);
    CoversConcat(ss[..i], [ss[i]], x);
    CoversConcat(ss[..i], ss[i + 1..], x);
    assert Covers([ss[i]], x) <==> ss[i].Has(x) by {
      assert [ss[i]][0] == ss[i];
    }
  }

  /** The slices an insert leaves alone. */
  ghost function Untouched(ss: seq<Slice>, s: Slice): seq<Slice> {
    ss[..if JoinsLeft(ss, s) then Position(ss, s.start) - 1 else Position(ss, s.start)] + ss[FirstKept(ss, s)..]
  }

  lemma TwoRemoved(ss: seq<Slice>, p: nat)
    requires 0 < p < |ss|
    ensures var rest := ss[..p] + ss[p + 1..];
            rest[p - 1] == ss[p - 1] && rest[..p - 1] + rest[p..] == ss[..p - 1] + ss[p + 1..]
  {
  }

  lemma CoversUntouched(ss: seq<Slice>, s: Slice, x: int)
    requires !HitsStart(ss, s)
    ensures var p := Position(ss, s.start);
            Covers(ss, x) <==>
              || Covers(Untouched(ss, s), x)
              || (JoinsLeft(ss, s) && ss[p - 1].Has(x))
              || (JoinsRight(ss, s) && ss[p].Has(x))
  {
    var p := Position(ss, s.start);
    if JoinsRight(ss, s) {
      CoversElement(ss, p, x);
      if JoinsLeft(ss, s) {
        CoversElement(ss[..p] + ss[p + 1..], p - 1, x);
        TwoRemoved(ss, p);
      }
    } else if JoinsLeft(ss, s) {
      CoversElement(ss, p - 1, x);
    } else {
      assert Untouched(ss, s) == ss;
    }
  }

  /**
   The one way an insert can forget something: joining the slice on its left, it also
   replaces that slice's end. Offsets between the new end and the old one must then be
   covered by slices that the insert leaves alone.
   */
  ghost predicate NothingForgotten(ss: seq<Slice>, s: Slice) {
    HitsStart(ss, s) || !JoinsLeft(ss, s) ||
    forall x :: JoinedEnd(ss, s) <= x < ss[Position(ss, s.start) - 1].end ==> Covers(Untouched(ss, s), x)
  }

  lemma InsertedCovers(ss: seq<Slice>, s: Slice, x: int)
    requires Sorted(ss) && s.start <= s.end
    ensures Covers(Inserted(ss, s), x) ==> Covers(ss, x) || s.Has(x)
    ensures Covers(ss, x) || s.Has(x) ==>
              || Covers(Inserted(ss, s), x)
              || (!HitsStart(ss, s) && JoinsLeft(ss, s) && JoinedEnd(ss, s) <= x < ss[Position(ss, s.start) - 1].end
                  && !Covers(Untouched(ss, s), x))
    ensures !HitsStart(ss, s) && Covers(Untouched(ss, s), x) ==> Covers(Inserted(ss, s), x)
    ensures !HitsStart(ss, s) && JoinsLeft(ss, s) && JoinedEnd(ss, s) <= x && !Covers(Untouched(ss, s), x) ==>
              !Covers(Inserted(ss, s), x)
  {
    var p := Position(ss, s.start);
    if HitsStart(ss, s) {
      CoversElement(ss, p, x);
      CoversElement(Inserted(ss, s), p, x);
      assert Inserted(ss, s)[..p] + Inserted(ss, s)[p + 1..] == ss[..p] + ss[p + 1..];
    } else {
      InsertedParts(ss, s, x);
      CoversUntouched(ss, s, x);
    }
  }

  /** Inserting keeps the order that the next binary search needs. */
  lemma InsertSorted(ss: seq<Slice>, s: Slice)
    requires Sorted(ss) && s.start <= s.end
    ensures Sorted(Inserted(ss, s))
  {
    if !HitsStart(ss, s) {
      var p := Position(ss, s.start);
      if JoinsLeft(ss, s) {
        SortedAround(ss, p - 1, Slice(ss[p - 1].start, JoinedEnd(ss, s)), FirstKept(ss, s));
      } else {
        SortedAround(ss, p, Slice(s.start, JoinedEnd(ss, s)), FirstKept(ss, s));
      }
    }
  }

  lemma SortedAround(ss: seq<Slice>, i: nat, m: Slice, j: nat)
    requires Sorted(ss) && i <= j <= |ss| && m.start <= m.end
    requires i > 0 ==> ss[i - 1].start < m.start
    requires j < |ss| ==> m.start < ss[j].start
    ensures Sorted(Replaced(ss, i, m, j))
  {
    hide Replaced;
  }

  /** Inserting covers exactly the old offsets and the new range, if and only if nothing is forgotten. */
  lemma InsertExactIff(ss: seq<Slice>, s: Slice)
    requires Sorted(ss) && s.start <= s.end
    ensures (forall x :: Covers(Inserted(ss, s), x) <==> Covers(ss, x) || s.Has(x)) <==> NothingForgotten(ss, s)
  {
    forall x
      ensures Covers(Inserted(ss, s), x) ==> Covers(ss, x) || s.Has(x)
      ensures NothingForgotten(ss, s) && (Covers(ss, x) || s.Has(x)) ==> Covers(Inserted(ss, s), x)
    {
      InsertedCovers(ss, s, x);
    }
    if !NothingForgotten(ss, s) {
      var p := Position(ss, s.start);
      var x :| JoinedEnd(ss, s) <= x < ss[p - 1].end && !Covers(Untouched(ss, s), x);
      InsertedCovers(ss, s, x);
      assert ss[p - 1].Has(x);
    }
  }

  /** In a normal list the slices are disjoint, so what the left one covered no other slice covers. */
  lemma NormalAlone(ss: seq<Slice>, s: Slice, x: int)
    requires Normal(ss) && !HitsStart(ss, s) && JoinsLeft(ss, s) && ss[Position(ss, s.start) - 1].Has(x)
    ensures !Covers(Untouched(ss, s), x)
  {
    var p := Position(ss, s.start);
    var rest := Untouched(ss, s);
    forall i | 0 <= i < |rest| ensures !rest[i].Has(x) {
      assert i < p - 1 ==> rest[i] == ss[i];
      assert p - 1 <= i ==> rest[i] == ss[i - (p - 1) + FirstKept(ss, s)];
    }
  }

  /**
   For the lists that disjoint ranges leave, the condition is one comparison before the call:
   the new end must not lie before the end of the slice that is joined on the left.
   */
  lemma NormalInsertExactIff(ss: seq<Slice>, s: Slice)
    requires Normal(ss) && s.start <= s.end
    ensures (forall x :: Covers(Inserted(ss, s), x) <==> Covers(ss, x) || s.Has(x)) <==>
              (HitsStart(ss, s) || !JoinsLeft(ss, s) || ss[Position(ss, s.start) - 1].end <= JoinedEnd(ss, s))
  {
    hide Inserted, Untouched, Covers;
    InsertExactIff(ss, s);
    if !HitsStart(ss, s) && JoinsLeft(ss, s) {
      var left := ss[Position(ss, s.start) - 1];
      if JoinedEnd(ss, s) < left.end {
        NormalAlone(ss, s, left.end - 1);
      }
    }
  }

  // ------------------------------------------------------------------ whole runs

  ghost predicate Ordered(ins: seq<Slice>) {
    forall i :: 0 <= i < |ins| ==> ins[i].start <= ins[i].end
  }

  /** The slices after the ranges `ins` were inserted, one after the other, into a new tracker. */
  ghost function Run(ins: seq<Slice>): seq<Slice> {
    if ins == [] then [] else Inserted(Run(ins[..|ins| - 1]), ins[|ins| - 1])
  }

  lemma CoversLast(ins: seq<Slice>, x: int)
    requires ins != []
    ensures Covers(ins, x) <==> Covers(ins[..|ins| - 1], x) || ins[|ins| - 1].Has(x)
  {
    CoversElement(ins, |ins| - 1, x);
    assert ins[..|ins| - 1] + ins[|ins|..] == ins[..|ins| - 1];
  }

  /** Whatever is inserted, nothing is ever covered that was not inserted. */
  lemma {:induction false} RunSound(ins: seq<Slice>)
    requires Ordered(ins)
    ensures Sorted(Run(ins))
    ensures forall x :: Covers(Run(ins), x) ==> Covers(ins, x)
  {
    if ins != [] {
      var front, s := ins[..|ins| - 1], ins[|ins| - 1];
      RunSound(front);
      InsertSorted(Run(front), s);
      forall x | Covers(Run(ins), x) ensures Covers(ins, x) {
        InsertedCovers(Run(front), s, x);
        CoversLast(ins, x);
      }
    }
  }

  /** Whatever is inserted, completion is reported only when every offset of the piece was inserted. */
  lemma CompleteOnlyWhenAllInserted(ins: seq<Slice>, expectedSize: nat)
    requires Ordered(ins) && expectedSize < U32_LIMIT
    requires IsComplete(Run(ins), expectedSize)
    ensures forall x :: 0 <= x < expectedSize ==> Covers(ins, x)
  {
    RunSound(ins);
    hide Run, Sorted;
    var ss := Run(ins);
    forall x | 0 <= x < expectedSize ensures Covers(ins, x) {
      assert ss[0].Has(x);
    }
  }

  predicate Apart(a: Slice, b: Slice) {
    a.end <= b.start || b.end <= a.start
  }

  /** Non-empty ranges of which no two share an offset. */
  ghost predicate Disjoint(ins: seq<Slice>) {
    && (forall i :: 0 <= i < |ins| ==> ins[i].start < ins[i].end)
    && (forall i, j :: 0 <= i < j < |ins| ==> Apart(ins[i], ins[j]))
  }

  /** A new range next to a normal list: it lies in the gap its position names. */
  lemma GapBounds(ss: seq<Slice>, s: Slice)
    requires Normal(ss) && s.start < s.end
    requires forall x :: s.Has(x) ==> !Covers(ss, x)
    ensures var p := Position(ss, s.start);
            && !HitsStart(ss, s)
            && (p > 0 ==> ss[p - 1].end <= s.start)
            && (p < |ss| ==> s.end <= ss[p].start)
  {
    var p := Position(ss, s.start);
    assert s.Has(s.start);
    assert p < |ss| ==> ss[p].Has(ss[p].start) && (ss[p].start < s.end ==> s.Has(ss[p].start));
    assert p > 0 ==> (s.start < ss[p - 1].end <==> ss[p - 1].Has(s.start));
  }

  lemma NormalAround(ss: seq<Slice>, i: nat, m: Slice, j: nat)
    requires Normal(ss) && i <= j <= |ss| && m.start < m.end
    requires i > 0 ==> ss[i - 1].end < m.start
    requires j < |ss| ==> m.end < ss[j].start
    ensures Normal(Replaced(ss, i, m, j))
  {
    hide Replaced;
  }

  /** A range that arrives for the first time meets the conditions for being added exactly. */
  lemma FreshFits(ss: seq<Slice>, s: Slice)
    requires Normal(ss) && s.start < s.end
    requires forall x :: s.Has(x) ==> !Covers(ss, x)
    ensures AddsExactly(ss, s)
  {
    GapBounds(ss, s);
    hide Covers;
    if Position(ss, s.start) < |ss| {
      NormalOrder(ss, Position(ss, s.start));
    }
  }

  lemma NormalOrder(ss: seq<Slice>, p: nat)
    requires Normal(ss) && p < |ss|
    ensures ss[p].start < ss[p].end && (p + 1 < |ss| ==> ss[p].end < ss[p + 1].start)
  {
  }

  /** So it is added exactly, and merged as far as possible. */
  lemma InsertFresh(ss: seq<Slice>, s: Slice)
    requires Normal(ss) && s.start < s.end
    requires forall x :: s.Has(x) ==> !Covers(ss, x)
    ensures Normal(Inserted(ss, s))
    ensures forall x :: Covers(Inserted(ss, s), x) <==> Covers(ss, x) || s.Has(x)
  {
    FreshFits(ss, s);
    hide Covers, Normal, Inserted, StaysMaximal;
    InsertNormalIff(ss, s);
    NormalInsertExactIff(ss, s);
  }

  /** Where the slice that holds the inserted range ends. */
  function GrownEnd(ss: seq<Slice>, s: Slice): nat {
    var p := Position(ss, s.start);
    if HitsStart(ss, s) then (if ss[p].end < s.end then s.end else ss[p].end) else JoinedEnd(ss, s)
  }

  /** The position of the first slice that stays as it is behind that one. */
  function NextKept(ss: seq<Slice>, s: Slice): (p: nat)
    ensures p <= |ss|
  {
    if HitsStart(ss, s) then Position(ss, s.start) + 1 else FirstKept(ss, s)
  }

  predicate EndsBeforeNext(ss: seq<Slice>, s: Slice) {
    NextKept(ss, s) < |ss| ==> GrownEnd(ss, s) < ss[NextKept(ss, s)].start
  }

  lemma NormalAroundIff(ss: seq<Slice>, i: nat, m: Slice, j: nat)
    requires Normal(ss) && i <= j <= |ss| && m.start < m.end
    requires i > 0 ==> ss[i - 1].end < m.start
    ensures Normal(Replaced(ss, i, m, j)) <==> (j < |ss| ==> m.end < ss[j].start)
  {
    hide Replaced;
    if j < |ss| ==> m.end < ss[j].start {
      NormalAround(ss, i, m, j);
    } else {
      assert Replaced(ss, i, m, j)[i + 1] == ss[j];
    }
  }

  /**
   Only a slice that begins where the range ends is ever joined on the right, and an empty
   range is kept as an empty slice unless a slice takes it in.
   */
  predicate StaysMaximal(ss: seq<Slice>, s: Slice) {
    EndsBeforeNext(ss, s) && (s.start < s.end || HitsStart(ss, s) || JoinsLeft(ss, s))
  }

  lemma NonEmptyNormalIff(ss: seq<Slice>, s: Slice)
    requires Normal(ss) && s.start < s.end
    ensures Normal(Inserted(ss, s)) <==> EndsBeforeNext(ss, s)
  {
    hide Replaced, Normal;
    var p := Position(ss, s.start);
    NormalNeighbours(ss, s);
    if HitsStart(ss, s) {
      assert Inserted(ss, s) == Replaced(ss, p, Slice(s.start, GrownEnd(ss, s)), p + 1);
      NormalAroundIff(ss, p, Slice(s.start, GrownEnd(ss, s)), p + 1);
    } else if JoinsLeft(ss, s) {
      NormalAroundIff(ss, p - 1, Slice(ss[p - 1].start, JoinedEnd(ss, s)), FirstKept(ss, s));
    } else {
      NormalAroundIff(ss, p, Slice(s.start, JoinedEnd(ss, s)), FirstKept(ss, s));
    }
  }

  /** An empty range fits in front of the next slice, so what matters is that a slice takes it in. */
  lemma EmptyNormalIff(ss: seq<Slice>, s: Slice)
    requires Normal(ss) && s.start == s.end
    ensures EndsBeforeNext(ss, s)
    ensures Normal(Inserted(ss, s)) <==> HitsStart(ss, s) || JoinsLeft(ss, s)
  {
    var p := Position(ss, s.start);
    if HitsStart(ss, s) {
      assert Inserted(ss, s) == ss;
    } else if JoinsLeft(ss, s) {
      hide Replaced;
      NormalAroundIff(ss, p - 1, Slice(ss[p - 1].start, s.end), p);
    } else {
      assert Inserted(ss, s)[p] == s;
    }
  }

  /**
   Slices stay maximal and gaps apart exactly when the one that now holds the range ends
   before the next, and the range is not an empty one between slices.
   */
  lemma InsertNormalIff(ss: seq<Slice>, s: Slice)
    requires Normal(ss) && s.start <= s.end
    ensures Normal(Inserted(ss, s)) <==> StaysMaximal(ss, s)
  {
    hide Normal, Inserted, EndsBeforeNext;
    if s.start < s.end {
      NonEmptyNormalIff(ss, s);
    } else {
      EmptyNormalIff(ss, s);
    }
  }

  lemma NormalNeighbours(ss: seq<Slice>, s: Slice)
    requires Normal(ss) && s.start < s.end
    ensures var p := Position(ss, s.start);
            && s.start < GrownEnd(ss, s)
            && (HitsStart(ss, s) && p > 0 ==> ss[p - 1].end < s.start)
            && (!HitsStart(ss, s) && p > 1 ==> ss[p - 2].end < ss[p - 1].start)
            && (!HitsStart(ss, s) && p > 0 && !JoinsLeft(ss, s) ==> ss[p - 1].end < s.start)
  {
  }

  /** Disjoint ranges leave a normal list that covers exactly what was inserted. */
  lemma {:induction false} RunDisjoint(ins: seq<Slice>)
    requires Disjoint(ins)
    ensures Normal(Run(ins))
    ensures forall x :: Covers(Run(ins), x) <==> Covers(ins, x)
  {
    if ins != [] {
      var front, s := ins[..|ins| - 1], ins[|ins| - 1];
      RunDisjoint(front);
      forall x | s.Has(x) ensures !Covers(Run(front), x) {
        forall i | 0 <= i < |front| ensures !front[i].Has(x) {
          assert Apart(ins[i], ins[|ins| - 1]);
        }
      }
      InsertFresh(Run(front), s);
      forall x ensures Covers(Run(ins), x) <==> Covers(ins, x) {
        CoversLast(ins, x);
      }
    }
  }

  lemma CoversTail(ss: seq<Slice>, x: int)
    requires ss != []
    ensures Covers(ss, x) <==> ss[0].Has(x) || Covers(ss[1..], x)
  {
    CoversElement(ss, 0, x);
    assert ss[..0] + ss[1..] == ss[1..];
  }

  /** In a normal list the first slice is the run of covered offsets that starts lowest. */
  lemma NormalHead(ss: seq<Slice>)
    requires Normal(ss) && ss != []
    ensures Covers(ss, ss[0].start) && !Covers(ss, ss[0].end)
    ensures forall x :: Covers(ss, x) ==> ss[0].start <= x
    ensures forall x :: ss[0].Has(x) ==> Covers(ss, x)
    ensures forall x :: Covers(ss[1..], x) <==> Covers(ss, x) && ss[0].end <= x
    ensures Normal(ss[1..])
  {
    assert ss[0].Has(ss[0].start);
    forall x ensures Covers(ss[1..], x) <==> Covers(ss, x) && ss[0].end <= x {
      CoversTail(ss, x);
      assert forall i :: 0 <= i < |ss[1..]| ==> ss[1..][i] == ss[i + 1];
    }
  }

  /** A set of offsets has only one normal list. */
  lemma {:induction false} NormalUnique(a: seq<Slice>, b: seq<Slice>)
    requires Normal(a) && Normal(b)
    requires forall x :: Covers(a, x) <==> Covers(b, x)
    ensures a == b
  {
    if a != [] {
      NormalHead(a);
    }
    if b != [] {
      NormalHead(b);
    }
    if a != [] && b != [] {
      assert a[0] == b[0] by {
        assert Covers(a, b[0].start) && Covers(b, a[0].start);
        assert !a[0].Has(b[0].end) && !b[0].Has(a[0].end);
      }
      NormalUnique(a[1..], b[1..]);
      assert a == [a[0]] + a[1..] && b == [b[0]] + b[1..];
    }
  }

  /** Disjoint ranges may arrive in any order: only the offsets they cover matter. */
  lemma OrderIndependent(a: seq<Slice>, b: seq<Slice>)
    requires Disjoint(a) && Disjoint(b)
    requires forall x :: Covers(a, x) <==> Covers(b, x)
    ensures Run(a) == Run(b)
  {
    RunDisjoint(a);
    RunDisjoint(b);
    NormalUnique(Run(a), Run(b));
  }

  lemma WholeCovers(size: nat)
    requires size > 0
    ensures Normal([Slice(0, size)]) && forall x :: Covers([Slice(0, size)], x) <==> 0 <= x < size
  {
    forall x ensures Covers([Slice(0, size)], x) <==> 0 <= x < size {
      assert [Slice(0, size)][0].Has(x) <==> 0 <= x < size;
    }
  }

  /** After disjoint ranges, completion is reported exactly when they add up to the whole piece. */
  lemma DisjointCompleteIff(ins: seq<Slice>, expectedSize: nat)
    requires Disjoint(ins) && 0 < expectedSize < U32_LIMIT
    ensures IsComplete(Run(ins), expectedSize) <==> forall x :: Covers(ins, x) <==> 0 <= x < expectedSize
  {
    hide Run, Disjoint;
    RunDisjoint(ins);
    var whole := [Slice(0, expectedSize)];
    WholeCovers(expectedSize);
    if forall x :: Covers(ins, x) <==> 0 <= x < expectedSize {
      NormalUnique(Run(ins), whole);
    }
    if IsComplete(Run(ins), expectedSize) {
      assert Run(ins) == whole;
    }
  }

  /** The expected size is truncated to 32 bits: for 4 GiB more than `n` the first `n` bytes are taken for everything. */
  lemma SizeTruncated(n: nat)
    requires n < U32_LIMIT
    ensures IsComplete([Slice(0, n)], U32_LIMIT + n)
  {
  }

  /** When everything has arrived, completion is reported exactly when the slices are maximal. */
  lemma CompleteIffNormal(ss: seq<Slice>, size: nat)
    requires 0 < size < U32_LIMIT && forall x :: Covers(ss, x) <==> 0 <= x < size
    ensures IsComplete(ss, size) <==> Normal(ss)
  {
    if Normal(ss) {
      WholeCovers(size);
      NormalUnique(ss, [Slice(0, size)]);
    }
  }

  /** The slices are the maximal slices of what was inserted. */
  ghost predicate Represents(ss: seq<Slice>, ins: seq<Slice>) {
    Normal(ss) && forall x :: Covers(ss, x) <==> Covers(ins, x)
  }

  /** What an insert must respect, as a caller can check it: it moves no end back and leaves maximal slices. */
  predicate AddsExactly(ss: seq<Slice>, s: Slice) {
    && StaysMaximal(ss, s)
    && (HitsStart(ss, s) || !JoinsLeft(ss, s) || ss[Position(ss, s.start) - 1].end <= JoinedEnd(ss, s))
  }

  lemma InsertRepresentsIff(ss: seq<Slice>, ins: seq<Slice>, s: Slice)
    requires Represents(ss, ins) && s.start <= s.end
    ensures Represents(Inserted(ss, s), ins + [s]) <==> AddsExactly(ss, s)
  {
    hide Normal, Inserted, StaysMaximal, Covers;
    InsertNormalIff(ss, s);
    NormalInsertExactIff(ss, s);
    assert (ins + [s])[..|ins|] == ins;
    forall x ensures Covers(ins + [s], x) <==> Covers(ss, x) || s.Has(x) {
      CoversLast(ins + [s], x);
    }
  }

  ghost predicate RepresentsThroughout(ins: seq<Slice>) {
    forall i :: 0 <= i <= |ins| ==> Represents(Run(ins[..i]), ins[..i])
  }

  ghost predicate AllAddExactly(ins: seq<Slice>) {
    forall i :: 0 <= i < |ins| ==> AddsExactly(Run(ins[..i]), ins[i])
  }

  lemma Prefixes(ins: seq<Slice>)
    requires ins != []
    ensures ins[..|ins|] == ins && ins[..|ins| - 1][..|ins| - 1] == ins[..|ins| - 1]
    ensures forall i :: 0 <= i <= |ins| - 1 ==> ins[..|ins| - 1][..i] == ins[..i]
  {
  }

  lemma ThroughoutFront(ins: seq<Slice>)
    requires ins != []
    ensures RepresentsThroughout(ins) <==> RepresentsThroughout(ins[..|ins| - 1]) && Represents(Run(ins), ins)
  {
    hide Represents, Run;
    var n := |ins| - 1;
    Prefixes(ins);
    if RepresentsThroughout(ins[..n]) && Represents(Run(ins), ins) {
      forall i | 0 <= i <= |ins| ensures Represents(Run(ins[..i]), ins[..i]) {
        assert i <= n ==> Represents(Run(ins[..n][..i]), ins[..n][..i]);
      }
    }
    if RepresentsThroughout(ins) {
      forall i | 0 <= i <= n ensures Represents(Run(ins[..n][..i]), ins[..n][..i]) {
        assert Represents(Run(ins[..i]), ins[..i]);
      }
      assert Represents(Run(ins[..|ins|]), ins[..|ins|]);
    }
  }

  lemma AllAddFront(ins: seq<Slice>)
    requires ins != []
    ensures AllAddExactly(ins) <==>
              AllAddExactly(ins[..|ins| - 1]) && AddsExactly(Run(ins[..|ins| - 1]), ins[|ins| - 1])
  {
    hide AddsExactly, Run;
    var n := |ins| - 1;
    Prefixes(ins);
    if AllAddExactly(ins) {
      forall i | 0 <= i < n ensures AddsExactly(Run(ins[..n][..i]), ins[..n][i]) {
        assert AddsExactly(Run(ins[..i]), ins[i]);
      }
    }
    if AllAddExactly(ins[..n]) {
      forall i | 0 <= i < n ensures AddsExactly(Run(ins[..i]), ins[i]) {
        assert AddsExactly(Run(ins[..n][..i]), ins[..n][i]);
      }
    }
  }

  /** Over any run, the slices are those of what was inserted all through exactly when every insert respects that. */
  lemma {:induction false} RunRepresentsIff(ins: seq<Slice>)
    requires Ordered(ins)
    ensures RepresentsThroughout(ins) <==> AllAddExactly(ins)
    ensures RepresentsThroughout(ins) ==> Represents(Run(ins), ins)
  {
    if ins == [] {
      assert ins[..0] == [];
    } else {
      hide Represents, AddsExactly, RepresentsThroughout, AllAddExactly, Run;
      var front, s := ins[..|ins| - 1], ins[|ins| - 1];
      RunRepresentsIff(front);
      ThroughoutFront(ins);
      AllAddFront(ins);
      LastSplit(ins);
      RunMore(front, s);
      if RepresentsThroughout(front) {
        InsertRepresentsIff(Run(front), front, s);
      }
    }
  }

  /** After such a run completion is reported exactly when the piece, and nothing else, was inserted. */
  lemma ExactRunCompleteIff(ins: seq<Slice>, size: nat)
    requires Ordered(ins) && AllAddExactly(ins) && 0 < size < U32_LIMIT
    ensures IsComplete(Run(ins), size) <==> forall x :: Covers(ins, x) <==> 0 <= x < size
  {
    hide Run, Covers, AllAddExactly, RepresentsThroughout;
    RunRepresentsIff(ins);
    if IsComplete(Run(ins), size) {
      WholeCovers(size);
      assert Run(ins) == [Slice(0, size)];
    }
    if forall x :: Covers(ins, x) <==> 0 <= x < size {
      CompleteIffNormal(Run(ins), size);
    }
  }

  // ------------------------------------------------------------------ repeated and overlapping blocks

  lemma RunMore(ins: seq<Slice>, s: Slice)
    ensures Run(ins + [s]) == Inserted(Run(ins), s)
  {
    assert (ins + [s])[..|ins|] == ins;
  }

  lemma InsertedFirst(s: Slice)
    ensures Inserted([], s) == [s]
  {
  }

  lemma RunOne(s: Slice)
    ensures Run([s]) == [s]
  {
    assert [] + [s] == [s];
    RunMore([], s);
  }

  lemma Grows(a: nat, b: nat, c: nat)
    requires a < b < c
    ensures Inserted([Slice(a, b)], Slice(b, c)) == [Slice(a, c)]
  {
    assert Position([Slice(a, b)][1..], b) == 0;
  }

  lemma ThreeBlocks()
    ensures Run([Slice(0, 16384)] + [Slice(16384, 32768)] + [Slice(32768, 49152)]) == [Slice(0, 49152)]
  {
    var a, b, c := Slice(0, 16384), Slice(16384, 32768), Slice(32768, 49152);
    hide Run, Inserted;
    RunOne(a);
    RunMore([a], b);
    Grows(0, 16384, 32768);
    RunMore([a] + [b], c);
    Grows(0, 32768, 49152);
  }

  /** A block delivered again strictly inside a merged slice makes the tracker forget what follows it. */
  lemma RepeatedBlockShrinks()
    ensures Run([Slice(0, 16384)] + [Slice(16384, 32768)] + [Slice(32768, 49152)] + [Slice(16384, 32768)]) ==
              [Slice(0, 32768)]
  {
    var ss, b := [Slice(0, 49152)], Slice(16384, 32768);
    ThreeBlocks();
    RunMore([Slice(0, 16384)] + [b] + [Slice(32768, 49152)], b);
    hide Run;
    assert Position(ss[1..], 16384) == 0;
    assert Inserted(ss, b) == [Slice(0, 32768)];
  }

  lemma OverlapRun()
    ensures Run([Slice(0, 16384)] + [Slice(32768, 49152)] + [Slice(0, 32768)]) == [Slice(0, 32768), Slice(32768, 49152)]
  {
    var a, b, c := Slice(0, 16384), Slice(32768, 49152), Slice(0, 32768);
    RunOne(a);
    RunMore([a], b);
    RunMore([a] + [b], c);
    hide Run;
    assert Position([a][1..], 32768) == 0;
    assert Inserted([a], b) == [a, b];
    assert Inserted([a, b], c) == [c, b];
  }

  /** A range that grows into the next slice is not joined to it: everything was inserted, and completion is not reported. */
  lemma OverlapNotJoined()
    ensures var ss := Run([Slice(0, 16384)] + [Slice(32768, 49152)] + [Slice(0, 32768)]);
            (forall x :: 0 <= x < 49152 ==> Covers(ss, x)) && !IsComplete(ss, 49152)
  {
    var ss := [Slice(0, 32768), Slice(32768, 49152)];
    OverlapRun();
    hide Run;
    forall x | 0 <= x < 49152 ensures Covers(ss, x) {
      assert ss[0].Has(x) || ss[1].Has(x);
    }
  }

  lemma EmptyKept()
    ensures Run([Slice(5, 5)] + [Slice(0, 16384)] + [Slice(16384, 32768)]) ==
              [Slice(0, 16384), Slice(5, 5), Slice(16384, 32768)]
  {
    var a, b, c := Slice(5, 5), Slice(0, 16384), Slice(16384, 32768);
    RunOne(a);
    RunMore([a], b);
    RunMore([a] + [b], c);
    hide Run, Inserted;
    BeforeEmpty(a, b);
    BehindBoth(b, a, c);
  }

  lemma BeforeEmpty(a: Slice, b: Slice)
    requires b.start < a.start == a.end < b.end
    ensures Inserted([a], b) == [b, a]
  {
  }

  lemma BehindBoth(a: Slice, b: Slice, c: Slice)
    requires a.start < b.start <= b.end < c.start
    ensures Inserted([a, b], c) == [a, b, c]
  {
    assert [a, b][1..] == [b] && Position([b], c.start) == 1;
  }

  /** A message without bytes leaves an empty slice, and then all blocks together do not complete the piece. */
  lemma EmptyRangeStays()
    ensures var ss := Run([Slice(5, 5)] + [Slice(0, 16384)] + [Slice(16384, 32768)]);
            (forall x :: Covers(ss, x) <==> 0 <= x < 32768) && !IsComplete(ss, 32768)
  {
    var ss := [Slice(0, 16384), Slice(5, 5), Slice(16384, 32768)];
    EmptyKept();
    hide Run;
    forall x ensures Covers(ss, x) <==> 0 <= x < 32768 {
      assert 0 <= x < 32768 ==> ss[0].Has(x) || ss[2].Has(x);
    }
  }
}
