/**
 Uniqueness of record numbers: in any run of the write half that mixes records of the current epoch,
 retransmissions under the previous one and changes of epoch, no two sealed records carry the same
 epoch and sequence number, until a counter wraps; and exactly which runs with wraps keep to this.
 */
module DtlsNonces {
  import opened Wrappers
  import opened DtlsWire
  import opened DtlsRecord

  datatype Op =
    | SealOp(previous: bool, typ: Byte, text: Bytes, maxOut: nat)
    | EpochOp(aead: Aead)

  type Pair = (nat, nat)

  /** The previous epoch needs to exist, and epochs do not wrap. */
  predicate Enabled(tx: Tx, op: Op) {
    && tx.Fits()
    && match op
       case SealOp(previous, _, _, _) => previous ==> tx.epoch >= 1
       case EpochOp(aead) => tx.epoch + 1 < 0x1_0000 && aead.recordVersion < 0x1_0000
  }

  function After(tx: Tx, op: Op): (r: Tx)
    requires Enabled(tx, op)
    ensures r.Fits()
  {
    match op
    case SealOp(previous, typ, text, maxOut) => Seal(tx, previous, typ, text, maxOut).tx
    case EpochOp(aead) => NextWriteEpoch(tx, aead)
  }

  /** The number of the record the operation seals, if it seals one. */
  function Sealed(tx: Tx, op: Op): Option<Pair>
    requires Enabled(tx, op)
  {
    match op
    case SealOp(previous, typ, text, maxOut) =>
      (match Seal(tx, previous, typ, text, maxOut).rec
       case Some(r) => Some((r.epoch, r.seqNum))
       case None => None)
    case EpochOp(_) => None
  }

  /** The operation uses up the last sequence number of its epoch; it fails, and the counter is zero. */
  ghost predicate Wraps(tx: Tx, op: Op)
    requires Enabled(tx, op)
  {
    op.SealOp? && tx.SeqNumFor(op.previous) + 1 == Pow256(6) && After(tx, op) != tx
  }

  predicate RunEnabled(tx: Tx, ops: seq<Op>)
    decreases |ops|
  {
    ops == [] || (Enabled(tx, ops[0]) && RunEnabled(After(tx, ops[0]), ops[1..]))
  }

  ghost predicate NeverWraps(tx: Tx, ops: seq<Op>)
    requires RunEnabled(tx, ops)
    decreases |ops|
  {
    ops == [] || (!Wraps(tx, ops[0]) && NeverWraps(After(tx, ops[0]), ops[1..]))
  }

  /** The numbers of all records sealed in the run, in order. */
  function AllSealed(tx: Tx, ops: seq<Op>): seq<Pair>
    requires RunEnabled(tx, ops)
    decreases |ops|
  {
    if ops == [] then []
    else
      var rest := AllSealed(After(tx, ops[0]), ops[1..]);
      match Sealed(tx, ops[0])
      case Some(p) => [p] + rest
      case None => rest
  }

  /** Every number used so far is behind the counter of its epoch, or belongs to an epoch that is gone. */
  predicate Behind(used: set<Pair>, tx: Tx) {
    forall p | p in used ::
      && p.0 <= tx.epoch
      && (p.0 == tx.epoch ==> p.1 < tx.seqNum)
      && (p.0 + 1 == tx.epoch ==> p.1 < tx.lastSeqNum)
  }

  /** One step that does not wrap seals a number never used before and stays ahead of all of them. */
  lemma StepStaysAhead(tx: Tx, op: Op, used: set<Pair>)
    requires Enabled(tx, op) && Behind(used, tx) && !Wraps(tx, op)
    ensures match Sealed(tx, op)
      case Some(p) => p !in used && Behind(used + {p}, After(tx, op))
      case None => Behind(used, After(tx, op))
  {
    match op
    case EpochOp(_) =>
    case SealOp(previous, typ, text, maxOut) =>
      var r := After(tx, op);
      if r != tx {
        var n := tx.SeqNumFor(previous);
        assert n + 1 < Pow256(6);
        SmallMod(n + 1, Pow256(6));
        assert r == tx.Advance(previous);
      }
  }

  predicate Distinct(s: seq<Pair>) {
    forall i, j | 0 <= i < j < |s| :: s[i] != s[j]
  }

  /**
   No epoch and sequence number are used by two successful seals, in any run without a wrap-around; a
   run with one is covered up to it, since the wrapping seal itself fails.
   */
  lemma {:induction false} NumbersAreUnique(tx: Tx, ops: seq<Op>, used: set<Pair>)
    requires RunEnabled(tx, ops) && NeverWraps(tx, ops) && Behind(used, tx)
    ensures Distinct(AllSealed(tx, ops))
    ensures forall i | 0 <= i < |AllSealed(tx, ops)| :: AllSealed(tx, ops)[i] !in used
    decreases |ops|
  {
    if ops != [] {
      var next, rest := After(tx, ops[0]), ops[1..];
      StepStaysAhead(tx, ops[0], used);
      match Sealed(tx, ops[0])
      case Some(p) => NumbersAreUnique(next, rest, used + {p});
      case None => NumbersAreUnique(next, rest, used);
    }
  }

  /** In particular from a fresh connection. */
  lemma FreshConnectionIsUnique(aead: Aead, ops: seq<Op>)
    requires var tx := Tx(0, 0, aead, 0, aead); RunEnabled(tx, ops) && NeverWraps(tx, ops)
    ensures Distinct(AllSealed(Tx(0, 0, aead, 0, aead), ops))
  {
    NumbersAreUnique(Tx(0, 0, aead, 0, aead), ops, {});
  }

  /**
   A wrapping seal fails but leaves the counter at zero, so the next successful seal of that epoch has
   number zero.
   */
  lemma WrapRepeatsZero(tx: Tx, op: Op, again: Op)
    requires Enabled(tx, op) && Wraps(tx, op)
    requires again.SealOp? && again.previous == op.previous
    ensures Sealed(tx, op) == None
    ensures Enabled(After(tx, op), again)
    ensures Sealed(After(tx, op), again).Some? ==>
      Sealed(After(tx, op), again).value == (tx.EpochFor(op.previous), 0)
  {
    ModSelf(Pow256(6));
  }

  /**
   When a number is used up: exactly if the cipher gives a text that fits the output. A record comes of it unless it is
   too long for its length field, or the number was the last.
   */
  lemma SealSpendsExactly(tx: Tx, op: Op)
    requires Enabled(tx, op) && op.SealOp? && op.maxOut >= RT_HEADER_LENGTH
    ensures var epoch, n := tx.EpochFor(op.previous), tx.SeqNumFor(op.previous);
      var ct := tx.AeadFor(op.previous).seal(op.typ, tx.aead.recordVersion, Sequence(epoch, n), op.text);
      var fits := ct.Some? && RT_HEADER_LENGTH + |ct.value| <= op.maxOut;
      && (if fits then After(tx, op).SeqNumFor(op.previous) == (if n + 1 == Pow256(6) then 0 else n + 1)
          else After(tx, op) == tx)
      && (Sealed(tx, op).Some? <==> fits && |ct.value| < 0x1_0000 && n + 1 < Pow256(6))
      && (Sealed(tx, op).Some? ==> Sealed(tx, op).value == (epoch, n))
  {
    hide Pow256, Sequence;
    var n := tx.SeqNumFor(op.previous);
    if n + 1 == Pow256(6) {
      ModSelf(Pow256(6));
    } else {
      SmallMod(n + 1, Pow256(6));
    }
  }

  function StateAfter(tx: Tx, ops: seq<Op>): Tx
    requires RunEnabled(tx, ops)
    decreases |ops|
  {
    if ops == [] then tx else StateAfter(After(tx, ops[0]), ops[1..])
  }

  lemma {:induction false} RunsCompose(tx: Tx, a: seq<Op>, b: seq<Op>)
    requires RunEnabled(tx, a) && RunEnabled(StateAfter(tx, a), b)
    ensures RunEnabled(tx, a + b) && AllSealed(tx, a + b) == AllSealed(tx, a) + AllSealed(StateAfter(tx, a), b)
    decreases |a|
  {
    hide Enabled, After, Sealed;
    if a == [] {
      assert a + b == b;
    } else {
      assert (a + b)[1..] == a[1..] + b;
      RunsCompose(After(tx, a[0]), a[1..], b);
    }
  }

  // ----- Exactly which runs use no pair twice -----

  /** The epochs whose counter has wrapped, and the pairs used up without a record since the connection began. */
  datatype Past = Past(wrapped: set<nat>, spent: set<Pair>) {
    /** The operation uses up `p`, with a record or, if it is refused for its length or wraps, without one. */
    ghost function Uses(tx: Tx, op: Op, p: Pair): Past
      requires Enabled(tx, op)
    {
      Past(if Wraps(tx, op) then wrapped + {p.0} else wrapped,
           if Sealed(tx, op).Some? then spent - {p} else if p.0 in wrapped then spent else spent + {p})
    }

    ghost function Then(tx: Tx, op: Op): Past
      requires Enabled(tx, op)
    {
      if op.SealOp? && After(tx, op) != tx then Uses(tx, op, PairFor(tx, op)) else this
    }
  }

  const NOTHING_PAST := Past({}, {})

  function PairFor(tx: Tx, op: Op): Pair
    requires Enabled(tx, op) && op.SealOp?
  {
    (tx.EpochFor(op.previous), tx.SeqNumFor(op.previous))
  }

  /** In an epoch whose counter has wrapped, a seal succeeds only under a number used up without a record before. */
  ghost predicate Careful(tx: Tx, op: Op, past: Past)
    requires Enabled(tx, op)
  {
    match Sealed(tx, op)
    case Some(p) => p.0 in past.wrapped ==> p in past.spent
    case None => true
  }

  ghost predicate CarefulRun(tx: Tx, ops: seq<Op>, past: Past)
    requires RunEnabled(tx, ops)
    decreases |ops|
  {
    ops == [] || (Careful(tx, ops[0], past) && CarefulRun(After(tx, ops[0]), ops[1..], past.Then(tx, ops[0])))
  }

  /** The pairs of one epoch up to the counter, all of them after a wrap, were used up with or without a record. */
  ghost predicate Recorded(epoch: nat, counter: nat, used: set<Pair>, past: Past) {
    forall n: nat | n < Pow256(6) ::
      (epoch in past.wrapped || n < counter) <==> ((epoch, n) in used || (epoch, n) in past.spent)
  }

  ghost predicate Known(tx: Tx, used: set<Pair>, past: Past) {
    && used !! past.spent
    && (forall p | p in used || p in past.spent :: p.0 <= tx.epoch)
    && (forall e | e in past.wrapped :: e <= tx.epoch)
    && Recorded(tx.epoch, tx.seqNum, used, past)
    && (tx.epoch >= 1 ==> Recorded(tx.epoch - 1, tx.lastSeqNum, used, past))
  }

  /** A seal leaves all as it is, or uses up its pair: with a record, without one, or by wrapping. */
  lemma SealUsesUp(tx: Tx, op: Op)
    requires Enabled(tx, op) && op.SealOp?
    ensures var p, t := PairFor(tx, op), After(tx, op);
      && p.1 < Pow256(6) && p.0 <= tx.epoch
      && (t == tx || t == (if op.previous then tx.(lastSeqNum := if p.1 + 1 == Pow256(6) then 0 else p.1 + 1)
                           else tx.(seqNum := if p.1 + 1 == Pow256(6) then 0 else p.1 + 1)))
      && (t == tx ==> Sealed(tx, op) == None)
      && (Sealed(tx, op) == None || Sealed(tx, op) == Some(p))
      && (Wraps(tx, op) <==> t != tx && p.1 + 1 == Pow256(6))
      && (Wraps(tx, op) ==> Sealed(tx, op) == None)
  {
    hide Pow256;
    var n := tx.SeqNumFor(op.previous);
    if n + 1 == Pow256(6) {
      ModSelf(Pow256(6));
    } else {
      SmallMod(n + 1, Pow256(6));
    }
  }

  /** What happens to the numbers of the epoch in which one is used up. */
  lemma UsedUp(epoch: nat, n: nat, used: set<Pair>, past: Past, record: bool)
    requires Recorded(epoch, n, used, past) && used !! past.spent && n < Pow256(6)
    requires record ==> n + 1 < Pow256(6) && (epoch, n) !in used
    ensures var wraps := n + 1 == Pow256(6);
      var next := Past(if wraps then past.wrapped + {epoch} else past.wrapped,
                       if record then past.spent - {(epoch, n)}
                       else if epoch in past.wrapped then past.spent else past.spent + {(epoch, n)});
      var more := if record then used + {(epoch, n)} else used;
      Recorded(epoch, if wraps then 0 else n + 1, more, next) && more !! next.spent
  {
    hide Pow256;
    assert epoch !in past.wrapped ==> (epoch, n) !in used && (epoch, n) !in past.spent;
  }

  lemma OtherEpoch(epoch: nat, counter: nat, used: set<Pair>, past: Past, more: set<Pair>, next: Past, p: Pair)
    requires Recorded(epoch, counter, used, past) && p.0 != epoch
    requires used <= more <= used + {p} && past.spent - {p} <= next.spent <= past.spent + {p}
    requires past.wrapped <= next.wrapped <= past.wrapped + {p.0}
    ensures Recorded(epoch, counter, more, next)
  {
    hide Pow256;
  }

  /** Each step keeps count of the pairs used up, and a careful one, and no other, uses a new pair. */
  lemma StepKnown(tx: Tx, op: Op, used: set<Pair>, past: Past)
    requires Enabled(tx, op) && Known(tx, used, past)
    ensures match Sealed(tx, op)
      case Some(p) =>
        (Careful(tx, op, past) <==> p !in used)
        && (p !in used ==> Known(After(tx, op), used + {p}, past.Then(tx, op)))
      case None => Careful(tx, op, past) && Known(After(tx, op), used, past.Then(tx, op))
  {
    if op.SealOp? {
      SealKnown(tx, op, used, past);
    } else {
      assert After(tx, op).epoch == tx.epoch + 1;
    }
  }

  lemma SealKnown(tx: Tx, op: Op, used: set<Pair>, past: Past)
    requires Enabled(tx, op) && op.SealOp? && Known(tx, used, past)
    ensures match Sealed(tx, op)
      case Some(p) =>
        (Careful(tx, op, past) <==> p !in used)
        && (p !in used ==> Known(After(tx, op), used + {p}, past.Then(tx, op)))
      case None => Careful(tx, op, past) && Known(After(tx, op), used, past.Then(tx, op))
  {
    hide Pow256, Enabled, After, Sealed, Wraps;
    SealUsesUp(tx, op);
    var p, t := PairFor(tx, op), After(tx, op);
    if t != tx && (Sealed(tx, op).None? || p !in used) {
      var record := Sealed(tx, op).Some?;
      var more, next := if record then used + {p} else used, past.Then(tx, op);
      UsedUp(p.0, p.1, used, past, record);
      if op.previous {
        OtherEpoch(tx.epoch, tx.seqNum, used, past, more, next, p);
      } else if tx.epoch >= 1 {
        OtherEpoch(tx.epoch - 1, tx.lastSeqNum, used, past, more, next, p);
      }
    }
  }

  predicate NoneOf(s: seq<Pair>, used: set<Pair>) {
    forall i | 0 <= i < |s| :: s[i] !in used
  }

  lemma FirstIsNew(p: Pair, rest: seq<Pair>, used: set<Pair>)
    ensures Distinct([p] + rest) && NoneOf([p] + rest, used)
      <==> p !in used && Distinct(rest) && NoneOf(rest, used + {p})
  {
    var all := [p] + rest;
    if Distinct(all) && NoneOf(all, used) {
      forall i | 0 <= i < |rest|
        ensures rest[i] !in used + {p}
      {
        assert rest[i] == all[i + 1] && all[0] != all[i + 1];
      }
      forall i, j | 0 <= i < j < |rest|
        ensures rest[i] != rest[j]
      {
        assert all[i + 1] != all[j + 1];
      }
      assert all[0] !in used;
    }
  }

  /** A run uses no pair twice, and none used before, exactly if each of its seals is careful. */
  lemma {:induction false} UniqueExactly(tx: Tx, ops: seq<Op>, used: set<Pair>, past: Past)
    requires RunEnabled(tx, ops) && Known(tx, used, past)
    ensures Distinct(AllSealed(tx, ops)) && NoneOf(AllSealed(tx, ops), used) <==> CarefulRun(tx, ops, past)
    decreases |ops|
  {
    hide Known, Enabled, After, Sealed, Careful, Past.Then, Distinct, NoneOf;
    if ops == [] {
      NothingIsNew(used);
    } else {
      var next, rest := After(tx, ops[0]), ops[1..];
      StepKnown(tx, ops[0], used, past);
      match Sealed(tx, ops[0])
      case Some(p) =>
        FirstIsNew(p, AllSealed(next, rest), used);
        if p !in used {
          UniqueExactly(next, rest, used + {p}, past.Then(tx, ops[0]));
        }
      case None => UniqueExactly(next, rest, used, past.Then(tx, ops[0]));
    }
  }

  lemma NothingIsNew(used: set<Pair>)
    ensures Distinct([]) && NoneOf([], used)
  {
  }

  /**
   All runs of a connection, wraps and failures included: no pair is used twice exactly if, in an epoch whose counter
   has wrapped, a seal succeeds only under a number that was used up without a record before.
   */
  lemma ConnectionIsUniqueExactly(aead: Aead, ops: seq<Op>)
    requires RunEnabled(Tx(0, 0, aead, 0, aead), ops)
    ensures var tx := Tx(0, 0, aead, 0, aead);
      Distinct(AllSealed(tx, ops)) <==> CarefulRun(tx, ops, NOTHING_PAST)
  {
    UniqueExactly(Tx(0, 0, aead, 0, aead), ops, {}, NOTHING_PAST);
  }

  // ----- Where no record is too long -----

  /** The output buffers leave no room for a record whose length does not fit 16 bits. */
  predicate ShortRecords(ops: seq<Op>) {
    forall i | 0 <= i < |ops| :: ops[i].SealOp? ==> ops[i].maxOut < 0x1_0000 + RT_HEADER_LENGTH
  }

  /** No seal succeeds in an epoch once its counter has wrapped. */
  ghost predicate StopsAtWrap(tx: Tx, ops: seq<Op>, wrapped: set<nat>)
    requires RunEnabled(tx, ops)
    decreases |ops|
  {
    ops == [] ||
    (var op := ops[0];
     && (Sealed(tx, op).Some? ==> Sealed(tx, op).value.0 !in wrapped)
     && StopsAtWrap(After(tx, op), ops[1..],
          if Wraps(tx, op) then wrapped + {tx.EpochFor(op.previous)} else wrapped))
  }

  /** What a short record's seal uses up without a record is the last number of its epoch. */
  lemma ShortSealSpends(tx: Tx, op: Op, past: Past)
    requires Enabled(tx, op) && op.SealOp? && op.maxOut < 0x1_0000 + RT_HEADER_LENGTH
    requires forall p | p in past.spent :: p.1 + 1 == Pow256(6)
    ensures forall p | p in past.Then(tx, op).spent :: p.1 + 1 == Pow256(6)
    ensures past.Then(tx, op).wrapped ==
      if Wraps(tx, op) then past.wrapped + {tx.EpochFor(op.previous)} else past.wrapped
    ensures Careful(tx, op, past) <==> (Sealed(tx, op).Some? ==> Sealed(tx, op).value.0 !in past.wrapped)
  {
    hide Pow256, Sequence;
  }

  lemma {:induction false} CarefulIsStopping(tx: Tx, ops: seq<Op>, past: Past)
    requires RunEnabled(tx, ops) && ShortRecords(ops) && forall p | p in past.spent :: p.1 + 1 == Pow256(6)
    ensures CarefulRun(tx, ops, past) <==> StopsAtWrap(tx, ops, past.wrapped)
    decreases |ops|
  {
    hide Pow256, Enabled, After, Sealed, Wraps, Careful;
    if ops != [] {
      var op, rest := ops[0], ops[1..];
      assert ShortRecords(rest) by {
        assert forall i | 0 <= i < |rest| :: rest[i] == ops[i + 1];
      }
      if op.SealOp? {
        ShortSealSpends(tx, op, past);
      } else {
        EpochSpendsNothing(tx, op, past);
      }
      CarefulIsStopping(After(tx, op), rest, past.Then(tx, op));
    }
  }

  lemma EpochSpendsNothing(tx: Tx, op: Op, past: Past)
    requires Enabled(tx, op) && op.EpochOp?
    ensures past.Then(tx, op) == past && Careful(tx, op, past) && Sealed(tx, op) == None && !Wraps(tx, op)
  {
  }

  /** With such buffers: no pair is used twice exactly if sealing stops in an epoch when its counter wraps. */
  lemma UniqueIffStopsAtWrap(aead: Aead, ops: seq<Op>)
    requires RunEnabled(Tx(0, 0, aead, 0, aead), ops) && ShortRecords(ops)
    ensures var tx := Tx(0, 0, aead, 0, aead);
      Distinct(AllSealed(tx, ops)) <==> StopsAtWrap(tx, ops, {})
  {
    ConnectionIsUniqueExactly(aead, ops);
    CarefulIsStopping(Tx(0, 0, aead, 0, aead), ops, NOTHING_PAST);
  }

  // ----- A run that repeats a pair -----

  function Repeat(op: Op, n: nat): seq<Op> {
    if n == 0 then [] else [op] + Repeat(op, n - 1)
  }

  /** The operation seals a record of the current epoch, whatever the sequence number. */
  ghost predicate AlwaysSeals(tx: Tx, op: Op) {
    && op.SealOp? && !op.previous && tx.Fits()
    && forall number: Bytes {:trigger tx.aead.seal(op.typ, tx.aead.recordVersion, number, op.text)} ::
      var ct := tx.aead.seal(op.typ, tx.aead.recordVersion, number, op.text);
      ct.Some? && |ct.value| < 0x1_0000 && RT_HEADER_LENGTH + |ct.value| <= op.maxOut
  }

  lemma SixBytes()
    ensures Pow256(6) > 1
  {
  }

  lemma SealsOnce(tx: Tx, op: Op)
    requires AlwaysSeals(tx, op)
    ensures Enabled(tx, op)
    ensures tx.seqNum + 1 < Pow256(6) ==>
      After(tx, op) == tx.(seqNum := tx.seqNum + 1) && Sealed(tx, op) == Some((tx.epoch, tx.seqNum))
    ensures tx.seqNum + 1 == Pow256(6) ==> After(tx, op) == tx.(seqNum := 0) && Sealed(tx, op) == None
    ensures Wraps(tx, op) <==> tx.seqNum + 1 == Pow256(6)
  {
    hide Pow256, Sequence;
    SixBytes();
    var ct := tx.aead.seal(op.typ, tx.aead.recordVersion, Sequence(tx.epoch, tx.seqNum), op.text);
    assert ct.Some? && |ct.value| < 0x1_0000 && RT_HEADER_LENGTH + |ct.value| <= op.maxOut;
    if tx.seqNum + 1 == Pow256(6) {
      ModSelf(Pow256(6));
    } else {
      SmallMod(tx.seqNum + 1, Pow256(6));
    }
  }

  /** One seal after the other uses one number after the other. */
  lemma {:induction false} SealsOn(tx: Tx, op: Op, n: nat)
    requires AlwaysSeals(tx, op) && tx.seqNum + n < Pow256(6)
    ensures RunEnabled(tx, Repeat(op, n)) && StateAfter(tx, Repeat(op, n)) == tx.(seqNum := tx.seqNum + n)
    ensures n > 0 ==> AllSealed(tx, Repeat(op, n)) != [] && AllSealed(tx, Repeat(op, n))[0] == (tx.epoch, tx.seqNum)
    decreases n
  {
    hide Pow256, Enabled, After, Sealed;
    if n > 0 {
      SealsOnce(tx, op);
      var t, rest := After(tx, op), Repeat(op, n - 1);
      StillSeals(tx, t, op);
      SealsOn(t, op, n - 1);
      assert Repeat(op, n)[1..] == rest;
    }
  }

  lemma StillSeals(tx: Tx, t: Tx, op: Op)
    requires AlwaysSeals(tx, op) && t.Fits() && t.aead == tx.aead
    ensures AlwaysSeals(t, op)
  {
  }

  /** The counter used up to its last number, the wrap, and one more seal. */
  ghost function WrappingRun(op: Op): seq<Op> {
    Repeat(op, Pow256(6) - 1) + [op, op]
  }

  lemma WrapAndRepeat(tx: Tx, op: Op)
    requires AlwaysSeals(tx, op) && tx.seqNum + 1 == Pow256(6)
    ensures RunEnabled(tx, [op, op]) && AllSealed(tx, [op, op]) == [(tx.epoch, 0)]
  {
    hide Pow256, Enabled, After, Sealed;
    SealsOnce(tx, op);
    var t := After(tx, op);
    StillSeals(tx, t, op);
    SealsOnce(t, op);
    assert [op, op][1..] == [op] && [op][1..] == [];
    assert RunEnabled(t, [op]) && AllSealed(t, [op]) == [(tx.epoch, 0)];
  }

  /** From a new connection whose cipher never fails, such a run is possible; it wraps, and uses number zero twice. */
  lemma WrappingRunRepeats(aead: Aead, op: Op)
    requires AlwaysSeals(Tx(0, 0, aead, 0, aead), op)
    ensures var tx := Tx(0, 0, aead, 0, aead);
      && RunEnabled(tx, WrappingRun(op)) && !NeverWraps(tx, WrappingRun(op))
      && !Distinct(AllSealed(tx, WrappingRun(op)))
  {
    hide Pow256, Enabled, After, Sealed, NeverWraps;
    var tx, first := Tx(0, 0, aead, 0, aead), Repeat(op, Pow256(6) - 1);
    SixBytes();
    SealsOn(tx, op, Pow256(6) - 1);
    var t := StateAfter(tx, first);
    StillSeals(tx, t, op);
    WrapAndRepeat(t, op);
    RunsCompose(tx, first, [op, op]);
    var all, m := AllSealed(tx, WrappingRun(op)), |AllSealed(tx, first)|;
    assert all[0] == (0, 0) && all[m] == (0, 0);
    if NeverWraps(tx, WrappingRun(op)) {
      FreshConnectionIsUnique(aead, WrappingRun(op));
    }
  }

  /** The cipher of a new connection, which leaves the text as it is. */
  const NULL_CIPHER := Aead(true, 0xfeff, 0, 0, (typ, version, number, text) => Some(text),
    (typ, version, number, text) => Some(text))

  lemma NullCipherIsSound()
    ensures NULL_CIPHER.Sound()
  {
  }

  lemma NullCipherRepeats(typ: Byte)
    ensures var tx, op := Tx(0, 0, NULL_CIPHER, 0, NULL_CIPHER), SealOp(false, typ, [], RT_HEADER_LENGTH);
      NULL_CIPHER.Sound() && RunEnabled(tx, WrappingRun(op)) && !Distinct(AllSealed(tx, WrappingRun(op)))
  {
    hide AllSealed, Distinct, RunEnabled, Repeat, NeverWraps;
    WrappingRunRepeats(NULL_CIPHER, SealOp(false, typ, [], RT_HEADER_LENGTH));
  }
}
