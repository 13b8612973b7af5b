/**
 The records that are not of the handshake, from the reader's side: how many warnings a connection bears, what the other
 alerts do, and how a ChangeCipherSpec is waited for.
 */
module DtlsAlerts {
  import opened Wrappers
  import opened DtlsWire
  import opened DtlsReplay
  import opened DtlsRecord
  import opened DtlsSender
  import opened DtlsReceiver
  import opened DtlsEndToEnd
  import opened DtlsDelivery

  // ----- Reading authentic records one after the other -----

  /** Sealed under the reader's key, and short enough to be parsed. */
  ghost predicate Authentic(rx: Rx, rec: Rec)
    ensures Authentic(rx, rec) ==> rec.Fits()
  {
    && |rec.ciphertext| <= MAX_ENCRYPTED_LENGTH
    && exists tx, previous :: SharedKey(rx, tx, previous) && SealedUnder(rec, tx, previous)
  }

  predicate IsWarning(rec: Rec) {
    rec.typ == RT_ALERT && |rec.plaintext| == 2 && rec.plaintext[0] == 1 && rec.plaintext[1] != 0
  }

  predicate IsText(rec: Rec) { rec.typ != RT_ALERT && !Overflows(rec) }

  /** Authentic warnings and records that are no alerts, in the order of their numbers. */
  ghost predicate Incoming(rx: Rx, recs: seq<Rec>) {
    && (forall i | 0 <= i < |recs| :: Authentic(rx, recs[i]) && (IsWarning(recs[i]) || IsText(recs[i])))
    && forall i, j | 0 <= i < j < |recs| :: Number(recs[i]) < Number(recs[j])
  }

  function ReadAll(rx: Rx, recs: seq<Rec>): Rx
    requires forall i | 0 <= i < |recs| :: recs[i].Fits()
  {
    if recs == [] then rx
    else
      var n := |recs| - 1;
      OpenRecord(ReadAll(rx, recs[..n]), recs[n].Wire()).rx
  }

  /** How many warnings there are at the end. */
  function Trailing(recs: seq<Rec>): (n: nat)
    ensures n <= |recs|
  {
    if recs == [] || !IsWarning(recs[|recs| - 1]) then 0 else Trailing(recs[..|recs| - 1]) + 1
  }

  lemma {:induction false} TrailingAreWarnings(recs: seq<Rec>, n: nat)
    requires n <= |recs|
    ensures Trailing(recs) >= n <==> forall i | |recs| - n <= i < |recs| :: IsWarning(recs[i])
  {
    hide IsWarning;
    if recs != [] && n > 0 {
      var front := recs[..|recs| - 1];
      TrailingAreWarnings(front, n - 1);
      if forall i | |recs| - n <= i < |recs| :: IsWarning(recs[i]) {
        forall i | |front| - (n - 1) <= i < |front|
          ensures IsWarning(front[i])
        {
          assert front[i] == recs[i];
        }
        assert IsWarning(recs[|recs| - 1]);
      }
      if Trailing(recs) >= n {
        forall i | |recs| - n <= i < |recs|
          ensures IsWarning(recs[i])
        {
          assert i < |front| ==> front[i] == recs[i];
        }
      }
    }
  }

  /** What the reader has after the records: their numbers and the warnings since the last of the others. */
  ghost predicate HasRead(rx: Rx, t: Rx, recs: seq<Rec>, seen: set<nat>)
    requires forall i | 0 <= i < |recs| :: recs[i].Fits()
  {
    && t.epoch == rx.epoch && t.aead == rx.aead && !t.closed && t.warnings == Trailing(recs)
    && Represents(t.window, seen) && forall s | s in seen :: exists i :: 0 <= i < |recs| && s == Number(recs[i])
  }

  /** One warning or other record with a number beyond all seen. */
  lemma ReadsOne(t: Rx, rec: Rec, seen: set<nat>)
    requires Authentic(t, rec) && !t.closed && Represents(t.window, seen) && (IsWarning(rec) || IsText(rec))
    requires forall s | s in seen :: s < Number(rec)
    ensures var o := OpenRecord(t, rec.Wire());
      && o.rx == t.(window := o.rx.window, warnings := if IsWarning(rec) then t.warnings + 1 else 0)
      && Represents(o.rx.window, seen + {Number(rec)})
      && (IsText(rec) ==> o.result == Opened(rec.typ, rec.plaintext))
      && (IsWarning(rec) ==>
            o.result == if o.rx.warnings > MAX_WARNING_ALERTS then Failed(UnexpectedMessage) else Discarded)
  {
    hide OpenRecord, Window.ShouldDiscard, Window.Record, Represents, Number, Rec.Wire, SealedUnder, Rec.Fits,
      SharedKey;
    var tx, previous := KeyOf(t, rec);
    NotStale(t.window, seen, Number(rec));
    RecordAdds(t.window, seen, Number(rec));
    SealedRecordOpens(t, tx, previous, rec, []);
    assert rec.Wire() + [] == rec.Wire();
  }

  lemma KeyOf(rx: Rx, rec: Rec) returns (tx: Tx, previous: bool)
    requires Authentic(rx, rec)
    ensures SharedKey(rx, tx, previous) && SealedUnder(rec, tx, previous) && |rec.ciphertext| <= MAX_ENCRYPTED_LENGTH
  {
    hide SealedUnder, Aead.Sound;
    tx, previous :| SharedKey(rx, tx, previous) && SealedUnder(rec, tx, previous);
  }

  lemma SameKeyAuthentic(rx: Rx, t: Rx, rec: Rec)
    requires Authentic(rx, rec) && t.epoch == rx.epoch && t.aead == rx.aead
    ensures Authentic(t, rec)
  {
    hide SealedUnder, Aead.Sound, IsVersion;
    var tx, previous := KeyOf(rx, rec);
    assert SharedKey(t, tx, previous);
  }

  lemma OneMore(rx: Rx, t: Rx, recs: seq<Rec>, seen: set<nat>)
    requires recs != [] && Incoming(rx, recs) && !rx.closed && forall i | 0 <= i < |recs| :: recs[i].Fits()
    requires HasRead(rx, t, recs[..|recs| - 1], seen)
    ensures var rec := recs[|recs| - 1]; var o := OpenRecord(t, rec.Wire());
      && HasRead(rx, o.rx, recs, seen + {Number(rec)})
      && (IsText(rec) ==> o.result == Opened(rec.typ, rec.plaintext))
      && (IsWarning(rec) ==>
            o.result == if Trailing(recs) > MAX_WARNING_ALERTS then Failed(UnexpectedMessage) else Discarded)
  {
    hide OpenRecord, Represents, Number, Rec.Wire, Rec.Fits, Authentic, IsWarning, IsText;
    var n := |recs| - 1;
    var rec := recs[n];
    SameKeyAuthentic(rx, t, rec);
    forall s | s in seen
      ensures s < Number(rec) && exists i :: 0 <= i < |recs| && s == Number(recs[i])
    {
      var i :| 0 <= i < n && s == Number(recs[..n][i]);
      assert recs[..n][i] == recs[i];
    }
    ReadsOne(t, rec, seen);
    TextIsNoWarning(rec);
  }

  lemma TextIsNoWarning(rec: Rec)
    ensures !(IsWarning(rec) && IsText(rec))
  {
  }

  lemma {:induction false} AllRead(rx: Rx, recs: seq<Rec>) returns (seen: set<nat>)
    requires Incoming(rx, recs) && !rx.closed && rx.warnings == 0 && rx.window == EMPTY_WINDOW
    requires forall i | 0 <= i < |recs| :: recs[i].Fits()
    ensures HasRead(rx, ReadAll(rx, recs), recs, seen)
    decreases |recs|
  {
    hide OpenRecord, Rec.Wire, Rec.Fits, Number, Authentic, IsWarning, IsText, HasRead;
    if recs == [] {
      NothingRead(rx);
      seen := {};
    } else {
      seen := AllRead(rx, recs[..|recs| - 1]);
      OneMore(rx, ReadAll(rx, recs[..|recs| - 1]), recs, seen);
      seen := seen + {Number(recs[|recs| - 1])};
    }
  }

  lemma NothingRead(rx: Rx)
    requires !rx.closed && rx.warnings == 0 && rx.window == EMPTY_WINDOW
    ensures HasRead(rx, rx, [], {})
  {
  }

  /** The record and the `MAX_WARNING_ALERTS` records before it are warnings. */
  predicate TooMany(recs: seq<Rec>, k: nat)
    requires k < |recs|
  {
    k >= MAX_WARNING_ALERTS && forall i | k - MAX_WARNING_ALERTS <= i <= k :: IsWarning(recs[i])
  }

  /**
   Of warnings mixed with other records, each record but a warning is opened, and a warning is ignored unless it is the
   fifth in a row; that one, and no other, ends the connection.
   */
  lemma WarningsAreBounded(rx: Rx, recs: seq<Rec>, k: nat)
    requires Incoming(rx, recs) && !rx.closed && rx.warnings == 0 && rx.window == EMPTY_WINDOW && k < |recs|
    requires forall i | 0 <= i < |recs| :: recs[i].Fits()
    ensures OpenRecord(ReadAll(rx, recs[..k]), recs[k].Wire()).result ==
      if !IsWarning(recs[k]) then Opened(recs[k].typ, recs[k].plaintext)
      else if TooMany(recs, k) then Failed(UnexpectedMessage)
      else Discarded
  {
    hide OpenRecord, Rec.Wire, Rec.Fits, Number, Authentic, IsWarning, HasRead;
    var upTo := recs[..k + 1];
    assert upTo[..k] == recs[..k] && upTo[k] == recs[k];
    var seen := AllRead(rx, recs[..k]);
    OneMore(rx, ReadAll(rx, recs[..k]), upTo, seen);
    if k >= MAX_WARNING_ALERTS {
      TrailingAreWarnings(upTo, MAX_WARNING_ALERTS + 1);
      assert forall i | 0 <= i <= k :: upTo[i] == recs[i];
    }
    assert IsWarning(recs[k]) || IsText(recs[k]);
  }

  // ----- The other alerts -----

  /** A close_notify closes the connection for reading, and nothing is read any more. */
  lemma CloseNotifyIsFinal(rx: Rx, rec: Rec, rest: Bytes, input: Bytes)
    requires Authentic(rx, rec) && !rx.closed && !rx.window.ShouldDiscard(Number(rec))
    requires rec.typ == RT_ALERT && rec.plaintext == [1, 0]
    ensures var o := OpenRecord(rx, rec.Wire() + rest);
      && o.result == CloseNotify && o.consumed == |rec.Wire()|
      && OpenRecord(o.rx, input) == OpenOutcome(o.rx, CloseNotify, 0)
  {
    hide Window.ShouldDiscard, Window.Record, Number, Rec.Wire, SealedUnder, ParseRecord, VersionAccepted;
    var tx, previous := KeyOf(rx, rec);
    SealedRecordOpens(rx, tx, previous, rec, rest);
  }

  /** What the reader makes of an alert that is neither a warning nor a close_notify; all of them end the connection. */
  lemma OtherAlertsAreFatal(rx: Rx, rec: Rec, rest: Bytes)
    requires Authentic(rx, rec) && !rx.closed && !rx.window.ShouldDiscard(Number(rec)) && !Overflows(rec)
    requires rec.typ == RT_ALERT && rec.plaintext != [1, 0] && !IsWarning(rec)
    ensures OpenRecord(rx, rec.Wire() + rest).result == Failed(
      if |rec.plaintext| != 2 then DecodeError else if rec.plaintext[0] == 2 then NoAlert else IllegalParameter)
  {
    hide OpenRecord, Window.ShouldDiscard, Window.Record, Number, Rec.Wire, SealedUnder;
    var tx, previous := KeyOf(rx, rec);
    SealedRecordOpens(rx, tx, previous, rec, rest);
  }

  // ----- Waiting for a ChangeCipherSpec -----

  /**
   Waiting for a ChangeCipherSpec, by the next record to come. A pending one is used, and nothing is read. Otherwise the
   record is read as during the handshake, and the wait is over exactly if it is a new ChangeCipherSpec that is
   accepted; none is pending afterwards, and only a record the connection does not survive ends it.
   */
  lemma CcsIsAwaited(c: Conn, msgs: seq<Message>, tx: Tx, previous: bool, flight: seq<OutMsg>,
      d: Cursor, rec: Rec, rest: Bytes)
    requires Invariant(c, msgs) && Comes(c.r, msgs, tx, previous, flight, d, rec)
    ensures c.r.Ring() &&
      var input := rec.Wire() + rest;
      var o, h := OpenChangeCipherSpec(c.r, input), OpenHandshake(c.r, input);
      var dropped := c.r.rx.window.ShouldDiscard(Number(rec));
      && (c.r.hasCcs ==> o == ReadOutcome(c.r.(hasCcs := false), ReadSuccess, 0))
      && (!c.r.hasCcs ==>
            && o.r == h.r.(hasCcs := false) && o.consumed == h.consumed
            && (o.result == ReadSuccess <==> NewCcs(c.r.rx.aead, rec, dropped))
            && (o.result.ReadError? <==> !dropped && !Survived(c.r.rx.aead, rec))
            && o.result in {ReadSuccess, ReadDiscard, ReadError(Reason(c.r.rx.aead, rec))})
  {
    hide Invariant, OpenHandshake, Window.ShouldDiscard, Rec.Wire, Number, Explained, Taken, Reason, Allowed,
      HonestEvent, Carries, Step, Welcome, WholeMessage, SharedKey, Sequence, Rec.Fits, Overflows;
    var e := Arrive(rec.Wire() + rest);
    DeliverOne(c, msgs, tx, previous, flight, d, rec, rest);
    assert Do(c, e).r == OpenHandshake(c.r, e.input).r;
    if rec.typ != RT_HANDSHAKE && !Overflows(rec) && !c.r.rx.window.ShouldDiscard(Number(rec)) {
      AsideIsPassedOver(c.r, tx, previous, rec, rest);
    }
  }
}
