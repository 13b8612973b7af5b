/**
 The required-field check of the nanopb decoder: a message passes exactly when each of the first 64 required
 fields occurs in the input.
 */
module PbRequired {
  import opened Wrappers
  import opened PbVarint
  import opened PbModel
  import opened PbDecode

  /** The field that a round reads, if it is a known one. */
  function KnownField(d: Descriptor, pos: nat, s: Bytes): Option<nat>
    requires d.fields == [] || pos < |d.fields|
  {
    if d.fields == [] || DecVarint32(s).None? then None else FindFrom(d, pos, 0, DecVarint32(s).value.value / 8)
  }

  /** The known fields that occur in the input, in order. */
  function Occurring(d: Descriptor, st: Progress, pos: nat, s: Bytes): seq<nat>
    requires d.fields == [] || pos < |d.fields|
    decreases |s|
  {
    match RoundOf(d, st, pos, s)
    case Ends => []
    case Fails => []
    case GoesOn(next, at, rest) =>
      (if KnownField(d, pos, s).Some? then [KnownField(d, pos, s).value] else []) + Occurring(d, next, at, rest)
  }

  /** Field `i` is required and has rank `r`, one of those that are checked. */
  predicate HasRank(d: Descriptor, i: nat, r: nat) {
    i < |d.fields| && d.fields[i].htype == Required && RequiredBefore(d, i) == r && r < MAX_REQUIRED_FIELDS
  }

  /** What one round adds to the ranks seen. */
  lemma RoundSeen(d: Descriptor, st: Progress, pos: nat, s: Bytes, r: nat)
    requires (d.fields == [] || pos < |d.fields|) && RoundOf(d, st, pos, s).GoesOn?
    ensures r in RoundOf(d, st, pos, s).next.seen <==>
      r in st.seen || (KnownField(d, pos, s).Some? && HasRank(d, KnownField(d, pos, s).value, r))
  {
    hide DecVarint32, FindFrom, SkipField, DecField, RequiredBefore, FixedFull;
  }

  /** The ranks seen at the end are those seen before and those of the required fields in the input. */
  lemma {:induction false} SeenAreOccurring(d: Descriptor, st: Progress, pos: nat, s: Bytes, r: nat)
    requires (d.fields == [] || pos < |d.fields|) && DecLoop(d, st, pos, s).Some?
    ensures r in DecLoop(d, st, pos, s).value.seen <==>
      r in st.seen || exists i :: i in Occurring(d, st, pos, s) && HasRank(d, i, r)
    decreases |s|
  {
    hide RoundOf, KnownField, HasRank;
    var round := RoundOf(d, st, pos, s);
    if round.GoesOn? {
      RoundSeen(d, st, pos, s, r);
      SeenAreOccurring(d, round.next, round.at, round.rest, r);
      var all, rest := Occurring(d, st, pos, s), Occurring(d, round.next, round.at, round.rest);
      assert all == (if KnownField(d, pos, s).Some? then [KnownField(d, pos, s).value] else []) + rest;
      assert forall i :: i in all <==> i in rest || (KnownField(d, pos, s).Some? && i == KnownField(d, pos, s).value);
    }
  }

  /** Different required fields have different ranks. */
  lemma RankInjective(d: Descriptor, i: nat, j: nat, r: nat)
    requires HasRank(d, i, r) && HasRank(d, j, r)
    ensures i == j
  {
    if i < j {
      RankGrows(d, i + 1, j);
    } else if j < i {
      RankGrows(d, j + 1, i);
    }
  }

  lemma {:induction false} RankGrows(d: Descriptor, i: nat, j: nat)
    requires i <= j <= |d.fields|
    ensures RequiredBefore(d, i) <= RequiredBefore(d, j)
    decreases j
  {
    if i < j {
      RankGrows(d, i, j - 1);
    }
  }

  /** Every rank below the count belongs to a required field. */
  lemma {:induction false} RankOwner(d: Descriptor, r: nat, n: nat) returns (i: nat)
    requires n <= |d.fields| && r < RequiredBefore(d, n) && r < MAX_REQUIRED_FIELDS
    ensures i < n && HasRank(d, i, r)
  {
    if r < RequiredBefore(d, n - 1) {
      i := RankOwner(d, r, n - 1);
    } else {
      i := n - 1;
    }
  }

  lemma RankBounds(d: Descriptor, i: nat, r: nat)
    requires HasRank(d, i, r)
    ensures r < Min(RequiredBefore(d, |d.fields|), MAX_REQUIRED_FIELDS)
  {
    RankGrows(d, i + 1, |d.fields|);
  }

  /** A rank was seen exactly when the field that has it occurs. */
  lemma SeenIffOccurs(d: Descriptor, slots: seq<Slot>, s: Bytes, i: nat, r: nat)
    requires HasRank(d, i, r) && DecLoop(d, Progress(slots, {}, None), 0, s).Some?
    ensures r in DecLoop(d, Progress(slots, {}, None), 0, s).value.seen
      <==> i in Occurring(d, Progress(slots, {}, None), 0, s)
  {
    hide DecLoop, Occurring, HasRank;
    var start := Progress(slots, {}, None);
    SeenAreOccurring(d, start, 0, s, r);
    if j :| j in Occurring(d, start, 0, s) && HasRank(d, j, r) {
      RankInjective(d, i, j, r);
    }
  }

  /** Every required field among the first 64 occurs. */
  predicate AllRequiredOccur(d: Descriptor, occurring: seq<nat>) {
    forall i: nat | i < |d.fields| && d.fields[i].htype == Required && RequiredBefore(d, i) < MAX_REQUIRED_FIELDS ::
      i in occurring
  }

  /**
   A message that parses is accepted exactly when its last array without a stored count is full and every
   required field among the first 64 occurs in the input, whatever the length of the descriptor.
   */
  lemma RequiredCheckIsExact(d: Descriptor, slots: seq<Slot>, s: Bytes)
    ensures var start := Progress(slots, {}, None);
      DecMessage(d, slots, s).Some? <==>
        && DecLoop(d, start, 0, s).Some?
        && FixedFull(d, DecLoop(d, start, 0, s).value)
        && AllRequiredOccur(d, Occurring(d, start, 0, s))
  {
    hide DecLoop, FixedFull, Occurring;
    var start := Progress(slots, {}, None);
    if DecLoop(d, start, 0, s).Some? {
      var st := DecLoop(d, start, 0, s).value;
      if AllRequiredOccur(d, Occurring(d, start, 0, s)) {
        forall r: nat | r < Min(RequiredBefore(d, |d.fields|), MAX_REQUIRED_FIELDS)
          ensures r in st.seen
        {
          var i := RankOwner(d, r, |d.fields|);
          SeenIffOccurs(d, slots, s, i, r);
        }
      }
      if Complete(d, st) {
        forall i: nat | i < |d.fields| && d.fields[i].htype == Required && RequiredBefore(d, i) < MAX_REQUIRED_FIELDS
          ensures i in Occurring(d, start, 0, s)
        {
          RankBounds(d, i, RequiredBefore(d, i));
          SeenIffOccurs(d, slots, s, i, RequiredBefore(d, i));
        }
      }
    }
  }
}
