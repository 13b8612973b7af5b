/**
 Replay detection of DTLS records (section 4.1.2.6 of RFC 6347): a sliding window of 64 bits behind the
 largest sequence number seen, shown to refine the set of all sequence numbers seen.
 */
module DtlsReplay {
  import opened Wrappers
  import opened DtlsWire

  // ----- Sequence fields -----

  /** Reads eight bytes as a big-endian 64-bit number; `ret <<= 8; ret |= in[i]` never loses a bit. */
  method ToU64Be(b: Bytes) returns (ret: nat)
    requires |b| == 8
    ensures ret == BigEndian(b)
  {
    ret := 0;
    for i := 0 to 8
      invariant ret == BigEndian(b[..i])
    {
      assert b[..i + 1][..i] == b[..i];
      ret := ret * 0x100 + b[i];
    }
    assert b[..8] == b;
  }

  // ----- Bits of the map -----

  /** The number of sequence numbers the window covers. */
  const WINDOW_SIZE := 64

  predicate BitAt(m: bv64, a: bv6) {
    m & (1 << a) != 0
  }

  function OrBit(m: bv64, a: bv6): bv64 {
    m | (1 << a)
  }

  function ShiftLeft(m: bv64, a: bv6): bv64 {
    m << a
  }

  predicate Test(m: bv64, i: int) {
    0 <= i < WINDOW_SIZE && BitAt(m, i as bv6)
  }

  function SetBit(m: bv64, i: nat): bv64
    requires i < WINDOW_SIZE
  {
    OrBit(m, i as bv6)
  }

  /** Shifts the map by the distance the window slides; nothing survives a slide of 64 or more. */
  function Slide(m: bv64, shift: nat): bv64 {
    if shift >= WINDOW_SIZE then 0 else ShiftLeft(m, shift as bv6)
  }

  // Facts about the bit vectors alone.

  lemma BitIsLowBit(m: bv64, a: bv6)
    ensures BitAt(m, a) <==> (m >> a) & 1 == 1
  {
  }

  lemma OrSetsLowBit(m: bv64, k: bv6, a: bv6)
    ensures ((m | (1 << k)) >> a) & 1 == 1 <==> a == k || (m >> a) & 1 == 1
  {
  }

  lemma OrSets(m: bv64, k: bv6, a: bv6)
    ensures BitAt(OrBit(m, k), a) <==> a == k || BitAt(m, a)
  {
    BitIsLowBit(OrBit(m, k), a);
    BitIsLowBit(m, a);
    OrSetsLowBit(m, k, a);
  }

  lemma ShiftDrops(m: bv64, s: bv6, a: bv6)
    requires a < s
    ensures !BitAt(ShiftLeft(m, s), a)
  {
  }

  // A shift by up to 63 is a shift by its binary digits, from 32 down, and each of these moves the bits.

  lemma ShiftIs(m: bv64, s: bv6)
    ensures ShiftLeft(m, s) == m << s
  {
  }

  lemma Peel32(m: bv64, s: bv6)
    requires 32 <= s
    ensures m << s == (m << 32) << (s - 32)
  {
  }

  lemma Peel16(m: bv64, s: bv6)
    requires 16 <= s < 32
    ensures m << s == (m << 16) << (s - 16)
  {
  }

  lemma Peel8(m: bv64, s: bv6)
    requires 8 <= s < 16
    ensures m << s == (m << 8) << (s - 8)
  {
  }

  lemma Peel4(m: bv64, s: bv6)
    requires 4 <= s < 8
    ensures m << s == (m << 4) << (s - 4)
  {
  }

  lemma Peel2(m: bv64, s: bv6)
    requires 2 <= s < 4
    ensures m << s == (m << 2) << (s - 2)
  {
  }

  lemma Moves32(m: bv64, a: bv6)
    requires a >= 32
    ensures BitAt(m << 32, a) <==> BitAt(m, a - 32)
  {
  }

  lemma Moves16(m: bv64, a: bv6)
    requires a >= 16
    ensures BitAt(m << 16, a) <==> BitAt(m, a - 16)
  {
  }

  lemma Moves8(m: bv64, a: bv6)
    requires a >= 8
    ensures BitAt(m << 8, a) <==> BitAt(m, a - 8)
  {
  }

  lemma Moves4(m: bv64, a: bv6)
    requires a >= 4
    ensures BitAt(m << 4, a) <==> BitAt(m, a - 4)
  {
  }

  lemma Moves2(m: bv64, a: bv6)
    requires a >= 2
    ensures BitAt(m << 2, a) <==> BitAt(m, a - 2)
  {
  }

  lemma Moves1(m: bv64, a: bv6)
    requires a >= 1
    ensures BitAt(m << 1, a) <==> BitAt(m, a - 1)
  {
  }

  lemma ShiftsNothing(m: bv64)
    ensures ShiftLeft(m, 0) == m
  {
  }

  lemma MovesUnder2(m: bv64, s: bv6, a: bv6, t: bv6)
    requires s < 2 && s <= a && a - s == t
    ensures BitAt(ShiftLeft(m, s), a) <==> BitAt(m, t)
  {
    hide BitAt, ShiftLeft;
    if s == 0 {
      ShiftsNothing(m);
    } else {
      ShiftIs(m, 1);
      Moves1(m, a);
    }
  }

  lemma ShiftPeels2(m: bv64, s: bv6)
    requires 2 <= s < 4
    ensures ShiftLeft(m, s) == ShiftLeft(m << 2, s - 2)
  {
    hide ShiftLeft;
    ShiftIs(m, s);
    ShiftIs(m << 2, s - 2);
    Peel2(m, s);
  }

  lemma MovesUnder4(m: bv64, s: bv6, a: bv6, t: bv6)
    requires s < 4 && s <= a && a - s == t
    ensures BitAt(ShiftLeft(m, s), a) <==> BitAt(m, t)
  {
    hide BitAt, ShiftLeft;
    if s < 2 {
      MovesUnder2(m, s, a, t);
    } else {
      ShiftPeels2(m, s);
      MovesUnder2(m << 2, s - 2, a, t + 2);
      Moves2(m, t + 2);
    }
  }

  lemma ShiftPeels4(m: bv64, s: bv6)
    requires 4 <= s < 8
    ensures ShiftLeft(m, s) == ShiftLeft(m << 4, s - 4)
  {
    hide ShiftLeft;
    ShiftIs(m, s);
    ShiftIs(m << 4, s - 4);
    Peel4(m, s);
  }

  lemma MovesUnder8(m: bv64, s: bv6, a: bv6, t: bv6)
    requires s < 8 && s <= a && a - s == t
    ensures BitAt(ShiftLeft(m, s), a) <==> BitAt(m, t)
  {
    hide BitAt, ShiftLeft;
    if s < 4 {
      MovesUnder4(m, s, a, t);
    } else {
      ShiftPeels4(m, s);
      MovesUnder4(m << 4, s - 4, a, t + 4);
      Moves4(m, t + 4);
    }
  }

  lemma ShiftPeels8(m: bv64, s: bv6)
    requires 8 <= s < 16
    ensures ShiftLeft(m, s) == ShiftLeft(m << 8, s - 8)
  {
    hide ShiftLeft;
    ShiftIs(m, s);
    ShiftIs(m << 8, s - 8);
    Peel8(m, s);
  }

  lemma MovesUnder16(m: bv64, s: bv6, a: bv6, t: bv6)
    requires s < 16 && s <= a && a - s == t
    ensures BitAt(ShiftLeft(m, s), a) <==> BitAt(m, t)
  {
    hide BitAt, ShiftLeft;
    if s < 8 {
      MovesUnder8(m, s, a, t);
    } else {
      ShiftPeels8(m, s);
      MovesUnder8(m << 8, s - 8, a, t + 8);
      Moves8(m, t + 8);
    }
  }

  lemma ShiftPeels16(m: bv64, s: bv6)
    requires 16 <= s < 32
    ensures ShiftLeft(m, s) == ShiftLeft(m << 16, s - 16)
  {
    hide ShiftLeft;
    ShiftIs(m, s);
    ShiftIs(m << 16, s - 16);
    Peel16(m, s);
  }

  lemma MovesUnder32(m: bv64, s: bv6, a: bv6, t: bv6)
    requires s < 32 && s <= a && a - s == t
    ensures BitAt(ShiftLeft(m, s), a) <==> BitAt(m, t)
  {
    hide BitAt, ShiftLeft;
    if s < 16 {
      MovesUnder16(m, s, a, t);
    } else {
      ShiftPeels16(m, s);
      MovesUnder16(m << 16, s - 16, a, t + 16);
      Moves16(m, t + 16);
    }
  }

  lemma ShiftPeels32(m: bv64, s: bv6)
    requires 32 <= s
    ensures ShiftLeft(m, s) == ShiftLeft(m << 32, s - 32)
  {
    hide ShiftLeft;
    ShiftIs(m, s);
    ShiftIs(m << 32, s - 32);
    Peel32(m, s);
  }

  lemma ShiftMoves(m: bv64, s: bv6, a: bv6, t: bv6)
    requires s <= a && a - s == t
    ensures BitAt(ShiftLeft(m, s), a) <==> BitAt(m, t)
  {
    hide BitAt, ShiftLeft;
    if s < 32 {
      MovesUnder32(m, s, a, t);
    } else {
      ShiftPeels32(m, s);
      MovesUnder32(m << 32, s - 32, a, t + 32);
      Moves32(m, t + 32);
    }
  }

  // Facts about indices, as bit vectors and as integers.

  lemma IndexRoundTrip(i: nat)
    requires i < 64
    ensures (i as bv6) as int == i
  {
  }

  lemma IndexInjective(a: bv6, b: bv6)
    requires a as int == b as int
    ensures a == b
  {
  }

  lemma IndexOrder(a: bv6, b: bv6)
    ensures b <= a <==> b as int <= a as int
  {
  }

  lemma IndexDifference(a: bv6, b: bv6)
    requires b <= a
    ensures (a - b) as int == a as int - b as int
  {
  }

  // The same facts for integer indices.

  lemma SetTests(m: bv64, k: nat, i: nat)
    requires k < 64 && i < 64
    ensures Test(SetBit(m, k), i) <==> i == k || Test(m, i)
  {
    assert i as bv6 == k as bv6 <==> i == k by {
      IndexRoundTrip(k);
      IndexRoundTrip(i);
    }
    OrSets(m, k as bv6, i as bv6);
  }

  /** Sliding moves bit `i` to `i + shift` and lets the oldest bits fall out. */
  lemma SlideTests(m: bv64, shift: nat, i: nat)
    requires i < 64
    ensures Test(Slide(m, shift), i) <==> i >= shift && Test(m, i - shift)
  {
    if shift >= 64 {
      ZeroTests(i);
    } else if i < shift {
      IndexRoundTrip(shift);
      IndexRoundTrip(i);
      IndexOrder(i as bv6, shift as bv6);
      ShiftDrops(m, shift as bv6, i as bv6);
    } else {
      IndexRoundTrip(shift);
      IndexRoundTrip(i);
      IndexRoundTrip(i - shift);
      MovesTo(m, shift as bv6, i as bv6, (i - shift) as bv6);
    }
  }

  lemma MovesTo(m: bv64, s: bv6, a: bv6, t: bv6)
    requires a as int - s as int == t as int
    ensures BitAt(ShiftLeft(m, s), a) <==> BitAt(m, t)
  {
    IndexOrder(a, s);
    IndexDifference(a, s);
    IndexInjective(a - s, t);
    ShiftMoves(m, s, a, t);
  }

  lemma ZeroTests(i: nat)
    ensures !Test(0, i)
  {
  }

  // ----- The window -----

  /** Bit `1 << i` of `bits` stands for `maxSeqNum - i`. */
  datatype Window = Window(bits: bv64, maxSeqNum: nat) {
    /** Whether `seqNum` was seen or is too old to tell. */
    predicate ShouldDiscard(seqNum: nat) {
      seqNum <= maxSeqNum && (maxSeqNum - seqNum >= WINDOW_SIZE || Test(bits, maxSeqNum - seqNum))
    }

    /** The window once `seqNum` has been received, slid forward if needed. */
    function Record(seqNum: nat): Window {
      var w := if seqNum > maxSeqNum then Window(Slide(bits, seqNum - maxSeqNum), seqNum) else this;
      var idx := w.maxSeqNum - seqNum;
      if idx < WINDOW_SIZE then w.(bits := SetBit(w.bits, idx)) else w
    }
  }

  const EMPTY_WINDOW := Window(0, 0)

  /** The window of one read epoch, updated in place. */
  class Bitmap {
    var bits: bv64
    var maxSeqNum: nat

    ghost function State(): Window
      reads this
    {
      Window(bits, maxSeqNum)
    }

    constructor ()
      ensures State() == EMPTY_WINDOW
    {
      bits, maxSeqNum := 0, 0;
    }

    method ShouldDiscard(sequence: Bytes) returns (discard: bool)
      requires |sequence| == 8
      ensures discard == State().ShouldDiscard(BigEndian(sequence))
    {
      var seqNum := ToU64Be(sequence);
      if seqNum > maxSeqNum {
        return false;
      }
      var idx := maxSeqNum - seqNum;
      return idx >= WINDOW_SIZE || Test(bits, idx);
    }

    method Record(sequence: Bytes)
      requires |sequence| == 8
      modifies this
      ensures State() == old(State()).Record(BigEndian(sequence))
    {
      var seqNum := ToU64Be(sequence);
      if seqNum > maxSeqNum {
        bits := Slide(bits, seqNum - maxSeqNum);
        maxSeqNum := seqNum;
      }
      var idx := maxSeqNum - seqNum;
      if idx < WINDOW_SIZE {
        bits := SetBit(bits, idx);
      }
    }

    /** Clears the window for a new epoch. */
    method Reset()
      modifies this
      ensures State() == EMPTY_WINDOW
    {
      bits, maxSeqNum := 0, 0;
    }
  }

  // ----- Refinement of the set of all numbers seen -----

  /** `w` is the window of a receiver that has seen exactly the numbers of `seen`. */
  ghost predicate Represents(w: Window, seen: set<nat>) {
    && (forall s | s in seen :: s <= w.maxSeqNum)
    && (seen == {} ==> w == EMPTY_WINDOW)
    && (seen != {} ==> w.maxSeqNum in seen)
    && (forall i: nat | i < 64 && i <= w.maxSeqNum :: Test(w.bits, i) <==> (w.maxSeqNum - i) in seen)
  }

  /** A number is discarded exactly when it was seen or lies at least 64 behind the largest one. */
  lemma DiscardsExactlySeenOrStale(w: Window, seen: set<nat>, s: nat)
    requires Represents(w, seen)
    ensures w.ShouldDiscard(s) <==> s in seen || s + 64 <= w.maxSeqNum
  {
    if s <= w.maxSeqNum < s + 64 {
      assert w.maxSeqNum - (w.maxSeqNum - s) == s;
    }
  }

  lemma RecordAddsAt(w: Window, seen: set<nat>, s: nat, i: nat)
    requires Represents(w, seen) && !w.ShouldDiscard(s) && i < 64 && i <= w.Record(s).maxSeqNum
    ensures Test(w.Record(s).bits, i) <==> (w.Record(s).maxSeqNum - i) in seen + {s}
  {
    hide Test, SetBit, Slide;
    if s > w.maxSeqNum {
      var shift := s - w.maxSeqNum;
      SetTests(Slide(w.bits, shift), 0, i);
      SlideTests(w.bits, shift, i);
      assert i >= shift ==> w.maxSeqNum - (i - shift) == s - i;
    } else {
      SetTests(w.bits, w.maxSeqNum - s, i);
    }
  }

  /** Recording a number that was not discarded adds exactly that number. */
  lemma RecordAdds(w: Window, seen: set<nat>, s: nat)
    requires Represents(w, seen) && !w.ShouldDiscard(s)
    ensures Represents(w.Record(s), seen + {s})
  {
    var r := w.Record(s);
    forall i: nat | i < 64 && i <= r.maxSeqNum
      ensures Test(r.bits, i) <==> (r.maxSeqNum - i) in seen + {s}
    {
      RecordAddsAt(w, seen, s, i);
    }
  }

  // ----- Whole epochs -----

  /** A record that arrives: its sequence number and whether it authenticates. */
  datatype Arrival = Arrival(seqNum: nat, opens: bool)

  /** The window after a run of arrivals. Only a record that is not discarded and that opens is recorded. */
  function After(run: seq<Arrival>): Window {
    if run == [] then EMPTY_WINDOW
    else
      var w, a := After(run[..|run| - 1]), run[|run| - 1];
      if Accepts(w, a) then w.Record(a.seqNum) else w
  }

  predicate Accepts(w: Window, a: Arrival) {
    !w.ShouldDiscard(a.seqNum) && a.opens
  }

  /** Whether the `k`-th arrival of the run is accepted. */
  predicate AcceptedAt(run: seq<Arrival>, k: nat)
    requires k < |run|
  {
    Accepts(After(run[..k]), run[k])
  }

  ghost function AcceptedNumbers(run: seq<Arrival>): set<nat> {
    set k: nat | k < |run| && AcceptedAt(run, k) :: run[k].seqNum
  }

  lemma {:induction false} WindowOfRun(run: seq<Arrival>)
    ensures Represents(After(run), AcceptedNumbers(run))
  {
    if run != [] {
      var n := |run| - 1;
      var front := run[..n];
      WindowOfRun(front);
      forall k: nat | k < n
        ensures AcceptedAt(run, k) == AcceptedAt(front, k)
      {
        assert run[..k] == front[..k];
      }
      AcceptedNumbersStep(run);
      if AcceptedAt(run, n) {
        RecordAdds(After(front), AcceptedNumbers(front), run[n].seqNum);
      }
    }
  }

  lemma AcceptedNumbersStep(run: seq<Arrival>)
    requires run != []
    requires var n := |run| - 1; forall k: nat | k < n :: AcceptedAt(run, k) == AcceptedAt(run[..n], k)
    ensures var n := |run| - 1;
      AcceptedNumbers(run) == AcceptedNumbers(run[..n]) + (if AcceptedAt(run, n) then {run[n].seqNum} else {})
  {
    var n := |run| - 1;
    forall s | s in AcceptedNumbers(run)
      ensures s in AcceptedNumbers(run[..n]) + (if AcceptedAt(run, n) then {run[n].seqNum} else {})
    {
      var k: nat :| k < |run| && AcceptedAt(run, k) && run[k].seqNum == s;
      assert k < n ==> AcceptedAt(run[..n], k) && run[..n][k].seqNum == s;
    }
    forall s | s in AcceptedNumbers(run[..n])
      ensures s in AcceptedNumbers(run)
    {
      var k: nat :| k < n && AcceptedAt(run[..n], k) && run[..n][k].seqNum == s;
      assert AcceptedAt(run, k) && run[k].seqNum == s;
    }
  }

  /** No record is accepted twice in one epoch. */
  lemma NoReplayAccepted(run: seq<Arrival>, i: nat, j: nat)
    requires i < j < |run| && AcceptedAt(run, i) && AcceptedAt(run, j)
    ensures run[i].seqNum != run[j].seqNum
  {
    WindowOfRun(run[..j]);
    assert run[..j][..i] == run[..i];
    assert AcceptedAt(run[..j], i);
    DiscardsExactlySeenOrStale(After(run[..j]), AcceptedNumbers(run[..j]), run[j].seqNum);
  }

  /** An authentic record is turned away only as a true replay or as 64 or more behind an accepted one. */
  lemma OnlyReplaysAndStaleDropped(run: seq<Arrival>, j: nat)
    requires j < |run| && run[j].opens && !AcceptedAt(run, j)
    ensures exists i: nat :: (i < j && AcceptedAt(run, i)
      && (run[i].seqNum == run[j].seqNum || run[j].seqNum + 64 <= run[i].seqNum))
  {
    var front, s := run[..j], run[j].seqNum;
    WindowOfRun(front);
    DiscardsExactlySeenOrStale(After(front), AcceptedNumbers(front), s);
    var culprit := if s in AcceptedNumbers(front) then s else After(front).maxSeqNum;
    assert culprit in AcceptedNumbers(front);
    var i: nat :| i < j && AcceptedAt(front, i) && front[i].seqNum == culprit;
    assert front[..i] == run[..i];
    assert AcceptedAt(run, i) && run[i].seqNum == culprit;
  }
}
