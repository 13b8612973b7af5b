/**
 What nanopb reads: decoding as a function from a descriptor, the initial storage and the input to the new
 storage, or to failure. `PbDecoder` holds the stream code that computes it.
 */
module PbDecode {
  import opened Wrappers
  import opened PbVarint
  import opened PbModel
  import opened PbEncode

  /** The number of required fields whose presence is checked. */
  const MAX_REQUIRED_FIELDS := 64

  // ----- Defaults -----

  function Zeros(n: nat): Bytes { seq(n, _ => 0) }

  function DefaultValue(f: Field): Value
    decreases f, 0
  {
    if f.ltype == Submessage then
      if f.ptr.Sub? then MessageV(DefaultSlots(f.ptr.desc)) else MessageV([])
    else match f.ptr
      case Default(v) => v
      case _ =>
        (match f.ltype
         case BytesType => BytesV([])
         case StringType => StringV([])
         case FixedLengthBytes => FixedV(Zeros(f.dataSize))
         case _ => IntV(0))
  }

  /** Presence flags, counts and selectors are cleared; other storage gets its default value. */
  function DefaultSlot(f: Field): Slot
    decreases f, 1
  {
    match f.htype
    case Required => Single(DefaultValue(f))
    case Optional => if f.hasSize then Opt(None) else Single(DefaultValue(f))
    case Repeated => Many([])
    case Oneof => Union(None)
  }

  /** The storage of the first `i` fields. */
  function DefaultsTo(d: Descriptor, i: nat): (s: seq<Slot>)
    requires i <= |d.fields|
    ensures |s| == if i == 0 then 0 else SlotOf(d, i - 1) + 1
    decreases d, i
  {
    if i == 0 then []
    else
      var front := DefaultsTo(d, i - 1);
      if i > 1 && Shares(d.fields[i - 2], d.fields[i - 1]) then front else front + [DefaultSlot(d.fields[i - 1])]
  }

  function DefaultSlots(d: Descriptor): (s: seq<Slot>)
    ensures |s| == SlotCount(d)
    decreases d, |d.fields| + 1
  {
    DefaultsTo(d, |d.fields|)
  }

  // ----- Values -----

  /** A decoded value and the input behind it. */
  datatype Read = Read(v: Value, rest: Bytes)

  datatype Split = Split(inner: Bytes, rest: Bytes)

  /** A length and so many bytes. */
  function SplitLength(s: Bytes): (r: Option<Split>)
    ensures r.Some? ==> |r.value.inner| + |r.value.rest| < |s|
  {
    match DecVarint32(s)
    case None => None
    case Some(got) =>
      if |got.rest| < got.value then None else Some(Split(got.rest[..got.value], got.rest[got.value..]))
  }

  /** The signed value of a 32-bit word. */
  function Signed32(u: nat): int
    requires u < TWO_32
  {
    if u < 0x8000_0000 then u else u - TWO_32
  }

  /** The number a signed varint field takes; fields of at most 32 bits see its low word only. */
  function SignedOf(u: nat, size: nat): int
    requires u < TWO_64
  {
    if size == 8 then Signed64(u) else Signed32(Word32(u))
  }

  function DecValue(f: Field, base: Value, s: Bytes): (r: Option<Read>)
    ensures r.Some? ==> |r.value.rest| <= |s|
    ensures r.Some? && Packable(f.ltype) ==> |r.value.rest| < |s|
    decreases f, 0
  {
    match f.ltype
    case Varint =>
      (match DecVarint(s)
       case None => None
       case Some(got) =>
         var n := SignedOf(Word64(got.value), f.dataSize);
         if SignedFits(n, f.dataSize) then Some(Read(IntV(n), got.rest)) else None)
    case UVarint =>
      (match DecVarint(s)
       case None => None
       case Some(got) => if UnsignedFits(got.value, f.dataSize) then Some(Read(IntV(got.value), got.rest)) else None)
    case SVarint =>
      (match DecVarint(s)
       case None => None
       case Some(got) =>
         var n := UnZigZag(Word64(got.value));
         if SignedFits(n, f.dataSize) then Some(Read(IntV(n), got.rest)) else None)
    case Fixed32 => if |s| < 4 then None else Some(Read(IntV(FromLittleEndian(s[..4])), s[4..]))
    case Fixed64 => if |s| < 8 then None else Some(Read(IntV(FromLittleEndian(s[..8])), s[8..]))
    case BytesType =>
      (match DecVarint32(s)
       case None => None
       case Some(got) =>
         if got.value + BYTES_HEADER > f.dataSize || |got.rest| < got.value then None
         else Some(Read(BytesV(got.rest[..got.value]), got.rest[got.value..])))
    case StringType =>
      (match DecVarint32(s)
       case None => None
       case Some(got) =>
         if got.value + 1 > f.dataSize || |got.rest| < got.value then None
         else Some(Read(StringV(got.rest[..got.value]), got.rest[got.value..])))
    case FixedLengthBytes =>
      (match DecVarint32(s)
       case None => None
       case Some(got) =>
         if got.value == 0 then Some(Read(FixedV(Zeros(f.dataSize)), got.rest))
         else if got.value != f.dataSize || |got.rest| < got.value then None
         else Some(Read(FixedV(got.rest[..got.value]), got.rest[got.value..])))
    case Submessage =>
      (match SplitLength(s)
       case None => None
       case Some(split) =>
         if !f.ptr.Sub? || !base.MessageV? then None
         else
           // A new array entry starts from the defaults; other submessages are merged into what is there.
           var start := if f.htype == Repeated then DefaultSlots(f.ptr.desc) else base.slots;
           match DecMessage(f.ptr.desc, start, split.inner)
           case None => None
           case Some(slots) => Some(Read(MessageV(slots), split.rest)))
  }

  // ----- Fields -----

  /** Items of a packed array until the input ends or the array is full. */
  function DecPacked(f: Field, items: seq<Value>, s: Bytes): (r: Option<(seq<Value>, Bytes)>)
    requires Packable(f.ltype)
    decreases f, 1, |s|
  {
    if s == [] || |items| >= f.arraySize then Some((items, s))
    else match DecValue(f, DefaultValue(f), s)
      case None => None
      case Some(read) => DecPacked(f, items + [read.v], read.rest)
  }

  datatype Stored = Stored(slot: Slot, rest: Bytes)

  /** One occurrence of a field in the input. The wire type only tells packed arrays from single items. */
  function DecField(f: Field, slot: Slot, wireType: nat, s: Bytes): (r: Option<Stored>)
    ensures r.Some? ==> |r.value.rest| <= |s|
    decreases f, 2
  {
    match f.htype
    case Required =>
      if !slot.Single? then None
      else (match DecValue(f, slot.v, s)
            case None => None
            case Some(read) => Some(Stored(Single(read.v), read.rest)))
    case Optional =>
      if f.hasSize then
        if !slot.Opt? then None
        else
          (match DecValue(f, if slot.o.Some? then slot.o.value else DefaultValue(f), s)
           case None => None
           case Some(read) => Some(Stored(Opt(Some(read.v)), read.rest)))
      else if !slot.Single? then None
      else (match DecValue(f, slot.v, s)
            case None => None
            case Some(read) => Some(Stored(Single(read.v), read.rest)))
    case Repeated =>
      if !slot.Many? then None
      else if wireType == WT_STRING && Packable(f.ltype) then
        (match SplitLength(s)
         case None => None
         case Some(split) =>
           (match DecPacked(f, slot.items, split.inner)
            case None => None
            case Some((items, left)) => if left != [] then None else Some(Stored(Many(items), split.rest))))
      else if |slot.items| >= f.arraySize then None
      else (match DecValue(f, DefaultValue(f), s)
            case None => None
            case Some(read) => Some(Stored(Many(slot.items + [read.v]), read.rest)))
    case Oneof =>
      // A submessage member is cleared first, whatever the union held.
      match DecValue(f, DefaultValue(f), s)
      case None => None
      case Some(read) => Some(Stored(Union(Some(Member(f.tag, read.v))), read.rest))
  }

  // ----- Messages -----

  /** Skips a value of a field that is not in the descriptor. */
  function SkipField(wireType: nat, s: Bytes): (r: Option<Bytes>)
    ensures r.Some? ==> |r.value| <= |s|
  {
    if wireType == WT_VARINT then SkipVarint(s)
    else if wireType == WT_64BIT then if |s| < 8 then None else Some(s[8..])
    else if wireType == WT_STRING then
      (match SplitLength(s)
       case None => None
       case Some(split) => Some(split.rest))
    else if wireType == WT_32BIT then if |s| < 4 then None else Some(s[4..])
    else None
  }

  function SkipVarint(s: Bytes): (r: Option<Bytes>)
    ensures r.Some? ==> |r.value| < |s|
  {
    if s == [] then None else if s[0] >= 0x80 then SkipVarint(s[1..]) else Some(s[1..])
  }

  /**
   The storage so far, the required fields seen, by their rank among the required fields, and the array without
   a stored count that is being filled.
   */
  datatype Progress = Progress(slots: seq<Slot>, seen: set<nat>, fixed: Option<nat>)

  predicate FixedCount(f: Field) { f.htype == Repeated && !f.hasSize }

  /** The array being filled, if any, is full. */
  predicate FixedFull(d: Descriptor, st: Progress) {
    st.fixed.Some? && st.fixed.value < |d.fields| && SlotOf(d, st.fixed.value) < |st.slots| ==>
      var slot := st.slots[SlotOf(d, st.fixed.value)];
      slot.Many? && |slot.items| == d.fields[st.fixed.value].arraySize
  }

  /** Starts to fill an array without a stored count, unless it is already being filled. */
  function StartFixed(d: Descriptor, st: Progress, i: nat): Option<Progress>
    requires i < |d.fields|
  {
    if !FixedCount(d.fields[i]) || st.fixed == Some(i) then Some(st)
    else if !FixedFull(d, st) || SlotOf(d, i) >= |st.slots| then None
    else Some(st.(fixed := Some(i), slots := st.slots[SlotOf(d, i) := Many([])]))
  }

  function MarkSeen(d: Descriptor, st: Progress, i: nat): Progress
    requires i < |d.fields|
  {
    if d.fields[i].htype == Required && RequiredBefore(d, i) < MAX_REQUIRED_FIELDS then
      st.(seen := st.seen + {RequiredBefore(d, i)})
    else st
  }

  /** One occurrence of field `i`. */
  function DecOccurrence(d: Descriptor, st: Progress, i: nat, wireType: nat, s: Bytes): (r: Option<(Progress, Bytes)>)
    requires i < |d.fields|
    ensures r.Some? ==> |r.value.1| <= |s|
    decreases d, |s|, 0
  {
    match StartFixed(d, st, i)
    case None => None
    case Some(started) =>
      if SlotOf(d, i) >= |started.slots| then None
      else match DecField(d.fields[i], started.slots[SlotOf(d, i)], wireType, s)
        case None => None
        case Some(stored) =>
          Some((MarkSeen(d, started.(slots := started.slots[SlotOf(d, i) := stored.slot]), i), stored.rest))
  }

  /** One round of the decoding loop: the message ends, or is malformed, or goes on. */
  datatype Round = Ends | Fails | GoesOn(next: Progress, at: nat, rest: Bytes)

  /**
   Reads one field, known or not; a zero tag word ends the message. `pos` is where the search for the tag starts.
   On an empty descriptor, tag zero matches the terminator, which cannot be decoded.
   */
  function RoundOf(d: Descriptor, st: Progress, pos: nat, s: Bytes): (r: Round)
    requires d.fields == [] || pos < |d.fields|
    ensures r.GoesOn? ==> |r.rest| < |s| && (d.fields == [] || r.at < |d.fields|)
    decreases d, |s|, 1
  {
    if s == [] then Ends
    else match DecVarint32(s)
      case None => Fails
      case Some(got) =>
        if got.value == 0 then Ends
        else
          var tag, wireType := got.value / 8, got.value % 8;
          if d.fields == [] && tag == 0 then Fails
          else match if d.fields == [] then None else FindFrom(d, pos, 0, tag)
            case None =>
              (match SkipField(wireType, got.rest)
               case None => Fails
               case Some(rest) => GoesOn(st, pos, rest))
            case Some(i) =>
              match DecOccurrence(d, st, i, wireType, got.rest)
              case None => Fails
              case Some((next, rest)) => GoesOn(next, i, rest)
  }

  function DecLoop(d: Descriptor, st: Progress, pos: nat, s: Bytes): Option<Progress>
    requires d.fields == [] || pos < |d.fields|
    decreases d, |s|, 2
  {
    match RoundOf(d, st, pos, s)
    case Ends => Some(st)
    case Fails => None
    case GoesOn(next, at, rest) => DecLoop(d, next, at, rest)
  }

  function Min(a: nat, b: nat): nat { if a <= b then a else b }

  /** All of the first 64 required fields were seen, and the last array without a stored count is full. */
  predicate Complete(d: Descriptor, st: Progress) {
    && FixedFull(d, st)
    && forall r: nat | r < Min(RequiredBefore(d, |d.fields|), MAX_REQUIRED_FIELDS) :: r in st.seen
  }

  /** Decodes a message into storage that is already initialized. */
  function DecMessage(d: Descriptor, slots: seq<Slot>, s: Bytes): Option<seq<Slot>>
    decreases d, |s|, 3
  {
    match DecLoop(d, Progress(slots, {}, None), 0, s)
    case None => None
    case Some(st) => if Complete(d, st) then Some(st.slots) else None
  }

  /** Decodes a message into fresh storage. */
  function Decode(d: Descriptor, s: Bytes): Option<seq<Slot>> { DecMessage(d, DefaultSlots(d), s) }
}
