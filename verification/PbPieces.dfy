/**
 Arrays of numbers in pieces (Protocol Buffers Encoding guide, section "Packed Repeated Fields"): a decoder takes packed
 and single items alike. However a list of items is cut into packed pieces and single tagged items, the decoder joins
 them in order.
 */
module PbPieces {
  import opened Wrappers
  import opened PbVarint
  import opened PbModel
  import opened PbEncode
  import opened PbDecode
  import opened PbRoundTrip

  /** Some items in one packed piece, or a single item behind a tag of its own. */
  datatype Piece = Packed(items: seq<Value>) | Lone(item: Value)

  function ItemsOf(p: Piece): seq<Value> {
    match p
    case Packed(items) => items
    case Lone(item) => [item]
  }

  function Joined(pieces: seq<Piece>): seq<Value> {
    if pieces == [] then [] else ItemsOf(pieces[0]) + Joined(pieces[1..])
  }

  /** The bytes of a piece, as an encoder writes it. */
  function PieceBytes(f: Field, p: Piece): Bytes {
    match p
    case Packed(items) => EncTag(WT_STRING, f.tag) + EncString(EncItems(f, items, 0).bytes)
    case Lone(item) => EncTag(WireType(f.ltype), f.tag) + EncValue(f, item).bytes
  }

  function PiecesBytes(f: Field, pieces: seq<Piece>): Bytes {
    if pieces == [] then [] else PieceBytes(f, pieces[0]) + PiecesBytes(f, pieces[1..])
  }

  predicate AllOk(f: Field, items: seq<Value>) {
    forall j | 0 <= j < |items| :: ValueOk(f, items[j])
  }

  /** Items in range, and no piece longer than a length can say. */
  predicate PieceOk(f: Field, p: Piece) {
    AllOk(f, ItemsOf(p)) && (p.Packed? ==> |EncItems(f, p.items, 0).bytes| < TWO_32)
  }

  predicate PiecesOk(f: Field, pieces: seq<Piece>) {
    forall j | 0 <= j < |pieces| :: PieceOk(f, pieces[j])
  }

  /** An array of numbers whose slot can be read into. */
  predicate IsArray(d: Descriptor, st: Progress, i: nat) {
    && i < |d.fields| && d.fields[i].htype == Repeated && Packable(d.fields[i].ltype)
    && SlotOf(d, i) < |st.slots| && st.slots[SlotOf(d, i)].Many?
    && (FixedCount(d.fields[i]) && st.fixed != Some(i) ==> FixedFull(d, st))
  }

  /** What the items join: what the slot holds, unless the array has no stored count and starts afresh. */
  function Held(d: Descriptor, st: Progress, i: nat): seq<Value>
    requires IsArray(d, st, i)
  {
    if FixedCount(d.fields[i]) && st.fixed != Some(i) then [] else st.slots[SlotOf(d, i)].items
  }

  // ----- Packed pieces -----

  /** The packed items are added as far as there is room, and only if all of them have room the piece is used up. */
  lemma {:induction false} PackedJoins(f: Field, held: seq<Value>, items: seq<Value>, k: nat)
    requires Packable(f.ltype) && k <= |items| && AllOk(f, items) && |held| + k <= f.arraySize
    requires |EncItems(f, items, k).bytes| < TWO_32
    ensures EncItems(f, items, k).ok
    ensures var o := DecPacked(f, held + items[..k], EncItems(f, items, k).bytes);
      if |held| + |items| <= f.arraySize then o == Some((held + items, [])) else o.Some? && o.value.1 != []
    decreases |items| - k
  {
    hide DecValue, EncValue, DefaultValue, ValueOk;
    ItemsEncode(f, items, k);
    if k == |items| {
      assert items[..k] == items;
    } else {
      var rest := EncItems(f, items, k + 1).bytes;
      PackableBytes(f, items[k]);
      if |held| + k < f.arraySize {
        ScalarRoundTrip(f, items[k], DefaultValue(f), rest);
        PackedJoins(f, held, items, k + 1);
        assert (held + items[..k]) + [items[k]] == held + items[..k + 1];
      }
    }
  }

  // ----- One piece -----

  /** One piece is joined to what is there, if there is room; otherwise decoding fails. */
  lemma PieceDecodes(d: Descriptor, st: Progress, pos: nat, i: nat, p: Piece, tail: Bytes)
    requires DescOk(d) && pos < |d.fields| && IsArray(d, st, i) && PieceOk(d.fields[i], p)
    requires |Held(d, st, i)| <= d.fields[i].arraySize
    ensures var all := Held(d, st, i) + ItemsOf(p);
      DecLoop(d, st, pos, PieceBytes(d.fields[i], p) + tail) ==
        if |all| <= d.fields[i].arraySize then DecLoop(d, After(d, st, i, Many(all)), i, tail) else None
  {
    hide DecLoop, EncItems, EncTag, EncWord, DecPacked, SplitLength, EncString, FixedFull, EncValue, DecValue,
      DefaultValue, ValueOk;
    var f, held, k := d.fields[i], Held(d, st, i), SlotOf(d, i);
    match p
    case Packed(items) =>
      var body := EncItems(f, items, 0).bytes;
      TagDecodes(d, st, pos, i, WT_STRING, EncString(body) + tail);
      assert PieceBytes(f, p) + tail == EncTag(WT_STRING, f.tag) + (EncString(body) + tail);
      LengthRoundTrip(body, tail);
      PackedJoins(f, held, items, 0);
      assert held + items[..0] == held;
      StartedSlot(d, st, i, Many(held + items));
    case Lone(item) =>
      var s := EncValue(f, item).bytes + tail;
      TagDecodes(d, st, pos, i, WireType(f.ltype), s);
      assert PieceBytes(f, p) + tail == EncTag(WireType(f.ltype), f.tag) + s;
      assert ItemsOf(p)[0] == item;
      ValueEncodes(f, item);
      LoneDecodes(f, item, tail);
      StartedSlot(d, st, i, Many(held + [item]));
  }

  /** The scalar bytes are far shorter than a length can say. */
  lemma LoneDecodes(f: Field, v: Value, tail: Bytes)
    requires Packable(f.ltype) && ValueOk(f, v) && EncValue(f, v).ok
    ensures DecValue(f, DefaultValue(f), EncValue(f, v).bytes + tail) == Some(Read(v, tail))
    ensures WireType(f.ltype) != WT_STRING
  {
    hide DecValue, DefaultValue, EncVarint, LittleEndian, ZigZag;
    NumberIsShort(f, v);
    ScalarRoundTrip(f, v, DefaultValue(f), tail);
  }

  lemma NumberIsShort(f: Field, v: Value)
    requires Packable(f.ltype) && ValueOk(f, v)
    ensures |EncValue(f, v).bytes| <= 10
  {
    hide EncVarint, LittleEndian;
    if f.ltype == SVarint {
      ZigZagRoundTrip(v.n);
      VarintFitsTen(ZigZag(v.n));
    } else if f.ltype == Varint || f.ltype == UVarint {
      VarintFitsTen(v.n % TWO_64);
    }
  }

  /** Starting an array without a stored count and then storing it is storing it. */
  lemma StartedSlot(d: Descriptor, st: Progress, i: nat, slot: Slot)
    requires IsArray(d, st, i)
    ensures StartFixed(d, st, i).Some?
    ensures var started := StartFixed(d, st, i).value; var k := SlotOf(d, i);
      && |started.slots| == |st.slots| && started.slots[k] == Many(Held(d, st, i))
      && MarkSeen(d, started.(slots := started.slots[k := slot]), i) == After(d, st, i, slot)
  {
    hide FixedFull;
    var k := SlotOf(d, i);
    assert st.slots[k := Many([])][k := slot] == st.slots[k := slot];
  }

  // ----- Any pieces -----

  /** After a piece the array is being filled, and what it holds is what the next piece is joined to. */
  lemma StillArray(d: Descriptor, st: Progress, i: nat, all: seq<Value>)
    requires IsArray(d, st, i)
    ensures var mid := After(d, st, i, Many(all)); IsArray(d, mid, i) && Held(d, mid, i) == all
    ensures forall slot :: After(d, After(d, st, i, Many(all)), i, slot) == After(d, st, i, slot)
  {
    hide FixedFull;
    var k := SlotOf(d, i);
    forall slot
      ensures After(d, After(d, st, i, Many(all)), i, slot) == After(d, st, i, slot)
    {
      assert st.slots[k := Many(all)][k := slot] == st.slots[k := slot];
    }
  }

  /**
   However an array of numbers is cut into packed pieces and single items, and whatever has been read of it before: the
   decoder joins all items in order, exactly if there is room for all of them, and otherwise fails.
   */
  lemma {:induction false} PiecesJoin(d: Descriptor, st: Progress, pos: nat, i: nat, pieces: seq<Piece>, tail: Bytes)
    requires DescOk(d) && pos < |d.fields| && IsArray(d, st, i) && PiecesOk(d.fields[i], pieces) && pieces != []
    requires |Held(d, st, i)| <= d.fields[i].arraySize
    ensures var all := Held(d, st, i) + Joined(pieces);
      DecLoop(d, st, pos, PiecesBytes(d.fields[i], pieces) + tail) ==
        if |all| <= d.fields[i].arraySize then DecLoop(d, After(d, st, i, Many(all)), i, tail) else None
    decreases |pieces|
  {
    hide DecLoop, FixedFull, SlotOf, Held, After, PieceBytes, PieceOk, PiecesOk, DescOk, Joined, PiecesBytes;
    var f, p, rest := d.fields[i], pieces[0], pieces[1..];
    var all := Held(d, st, i) + ItemsOf(p);
    FirstPiece(f, Held(d, st, i), pieces, tail);
    PieceDecodes(d, st, pos, i, p, PiecesBytes(f, rest) + tail);
    if |all| <= f.arraySize {
      StillArray(d, st, i, all);
      if rest == [] {
        NoPieces(f, all, tail);
      } else {
        PiecesJoin(d, After(d, st, i, Many(all)), i, i, rest, tail);
      }
    }
  }

  lemma FirstPiece(f: Field, held: seq<Value>, pieces: seq<Piece>, tail: Bytes)
    requires pieces != [] && PiecesOk(f, pieces)
    ensures PiecesBytes(f, pieces) + tail == PieceBytes(f, pieces[0]) + (PiecesBytes(f, pieces[1..]) + tail)
    ensures (held + ItemsOf(pieces[0])) + Joined(pieces[1..]) == held + Joined(pieces)
    ensures PieceOk(f, pieces[0]) && PiecesOk(f, pieces[1..])
  {
    hide PieceBytes, PieceOk, ItemsOf;
    Associates(PieceBytes(f, pieces[0]), PiecesBytes(f, pieces[1..]), tail);
    Associates(held, ItemsOf(pieces[0]), Joined(pieces[1..]));
  }

  lemma Associates<T>(a: seq<T>, b: seq<T>, c: seq<T>)
    ensures (a + b) + c == a + (b + c)
  {
  }

  lemma NoPieces(f: Field, all: seq<Value>, tail: Bytes)
    ensures PiecesBytes(f, []) + tail == tail && all + Joined([]) == all
  {
  }

  // ----- What the encoder could have written -----

  function Singles(items: seq<Value>): seq<Piece> {
    if items == [] then [] else [Lone(items[0])] + Singles(items[1..])
  }

  lemma {:induction false} SinglesJoin(f: Field, items: seq<Value>)
    requires AllOk(f, items)
    ensures Joined(Singles(items)) == items && PiecesOk(f, Singles(items))
    ensures items != [] ==> Singles(items) != []
  {
    hide ValueOk;
    if items != [] {
      SinglesJoin(f, items[1..]);
      assert Singles(items)[1..] == Singles(items[1..]);
      assert forall j | 0 < j < |Singles(items)| :: Singles(items)[j] == Singles(items[1..])[j - 1];
    }
  }

  lemma {:induction false} SinglesBytes(f: Field, items: seq<Value>, k: nat)
    requires k <= |items| && AllOk(f, items)
    ensures EncTagged(f, items, k).ok && PiecesBytes(f, Singles(items[k..])) == EncTagged(f, items, k).bytes
    decreases |items| - k
  {
    hide EncValue, ValueOk, EncTag;
    ItemsEncode(f, items, k);
    if k < |items| {
      ValueEncodes(f, items[k]);
      SinglesBytes(f, items, k + 1);
      assert items[k..][1..] == items[k + 1..];
      assert Singles(items[k..])[1..] == Singles(items[k + 1..]);
    }
  }

  /** An array that is written with a tag on each item is read like the packed array. */
  lemma UnpackedReadsLikePacked(d: Descriptor, st: Progress, pos: nat, i: nat, items: seq<Value>, tail: Bytes)
    requires DescOk(d) && pos < |d.fields| && IsArray(d, st, i) && items != [] && AllOk(d.fields[i], items)
    requires |items| <= d.fields[i].arraySize && |EncItems(d.fields[i], items, 0).bytes| < TWO_32
    requires |Held(d, st, i)| <= d.fields[i].arraySize
    ensures EncTagged(d.fields[i], items, 0).ok && EncArray(d.fields[i], items).ok
    ensures DecLoop(d, st, pos, EncTagged(d.fields[i], items, 0).bytes + tail)
         == DecLoop(d, st, pos, EncArray(d.fields[i], items).bytes + tail)
  {
    hide DecLoop, Held, EncItems, EncTagged, EncTag, ValueOk, EncString;
    var f := d.fields[i];
    ItemsEncode(f, items, 0);
    SinglesJoin(f, items);
    SinglesBytes(f, items, 0);
    assert items[0..] == items;
    PiecesJoin(d, st, pos, i, Singles(items), tail);
    OnePiece(f, items);
    PiecesJoin(d, st, pos, i, [Packed(items)], tail);
  }

  lemma OnePiece(f: Field, items: seq<Value>)
    requires Packable(f.ltype) && items != [] && |items| <= f.arraySize && EncItems(f, items, 0).ok
    ensures EncArray(f, items) == Enc(true, PiecesBytes(f, [Packed(items)])) && Joined([Packed(items)]) == items
  {
    hide EncItems, EncTag, EncString;
    assert [Packed(items)][1..] == [];
    assert Joined([]) == [] && items + [] == items;
  }
}
