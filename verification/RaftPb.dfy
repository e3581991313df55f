/**
 The raft messages and their protobuf encoding. A byte field is None when the Go slice is nil.
 Lists do not distinguish nil from empty, and neither do the unrecognised bytes.
 */
module RaftPb {
  import opened Prelude
  import opened Wire

  datatype Entry = Entry(term: Word, index: Word, typ: Enum, data: Option<seq<Byte>>, unrecognized: seq<Byte>)

  datatype ConfState = ConfState(
    voters: seq<Word>, learners: seq<Word>, votersOutgoing: seq<Word>, learnersNext: seq<Word>,
    autoLeave: bool, unrecognized: seq<Byte>)

  datatype SnapshotMetadata = SnapshotMetadata(
    confState: ConfState, index: Word, term: Word, unrecognized: seq<Byte>)

  datatype Snapshot = Snapshot(
    data: Option<seq<Byte>>, metadata: SnapshotMetadata, unrecognized: seq<Byte>)

  datatype Message = Message(
    typ: Enum, to: Word, from: Word, term: Word, logTerm: Word, index: Word, entries: seq<Entry>,
    commit: Word, snapshot: Snapshot, reject: bool, rejectHint: Word, context: Option<seq<Byte>>,
    unrecognized: seq<Byte>)

  datatype HardState = HardState(term: Word, vote: Word, commit: Word, unrecognized: seq<Byte>)

  datatype ConfChange = ConfChange(
    id: Word, typ: Enum, nodeID: Word, context: Option<seq<Byte>>, unrecognized: seq<Byte>)

  const EntryConfChange: Enum := 1

  const ConfChangeAddNode: Enum := 0
  const ConfChangeUpdateNode: Enum := 2

  const MsgHup: Enum := 0

  /** The zero values Unmarshal starts from. */
  const NoEntry := Entry(0, 0, 0, None, [])
  const NoConfState := ConfState([], [], [], [], false, [])
  const NoMetadata := SnapshotMetadata(NoConfState, 0, 0, [])
  const NoSnapshot := Snapshot(None, NoMetadata, [])
  const NoMessage := Message(0, 0, 0, 0, 0, 0, [], 0, NoSnapshot, false, 0, None, [])
  const NoHardState := HardState(0, 0, 0, [])
  const NoConfChange := ConfChange(0, 0, 0, None, [])

  function Bit(b: bool): Word {
    if b then 1 else 0
  }

  function OptBytes(num: FieldNum, data: Option<seq<Byte>>, next: Out): Out {
    match data case None => next case Some(bs) => Bytes(num, bs, next)
  }

  function OptSize(data: Option<seq<Byte>>): nat {
    match data case None => 0 case Some(bs) => 1 + |bs| + Sov(|bs|)
  }

  // ------------------------------------------------------------------ Entry

  function EntryOut(e: Entry): Out {
    Scalar(1, FromInt32(e.typ), Scalar(2, e.term, Scalar(3, e.index, OptBytes(4, e.data, Done))))
  }

  function EntrySize(e: Entry): nat {
    1 + Sov(FromInt32(e.typ)) + 1 + Sov(e.term) + 1 + Sov(e.index) + OptSize(e.data) + |e.unrecognized|
  }

  function EncodeEntry(e: Entry): seq<Byte> {
    Emit(EntryOut(e)) + e.unrecognized
  }

  function EntryKind(num: Enum): Kind {
    if 1 <= num <= 3 then Single else if num == 4 then Delimited else Unknown
  }

  function EntryPut(e: Entry, num: Enum, v: Value): Result<Entry, Error> {
    match v
    case Num(x) =>
      if num == 1 then Ok(e.(typ := ToInt32(x)))
      else if num == 2 then Ok(e.(term := x))
      else Ok(e.(index := x))
    case Blob(data) => Ok(e.(data := Some(data)))
    case Nums(_) => Err(WrongWireType)
  }

  const EntrySchema: Schema<Entry> :=
    Schema(EntryKind, EntryPut, (e: Entry, bs) => e.(unrecognized := e.unrecognized + bs))

  // -------------------------------------------------------------- HardState

  function HardStateOut(h: HardState): Out {
    Scalar(1, h.term, Scalar(2, h.vote, Scalar(3, h.commit, Done)))
  }

  function HardStateSize(h: HardState): nat {
    1 + Sov(h.term) + 1 + Sov(h.vote) + 1 + Sov(h.commit) + |h.unrecognized|
  }

  function EncodeHardState(h: HardState): seq<Byte> {
    Emit(HardStateOut(h)) + h.unrecognized
  }

  function HardStatePut(h: HardState, num: Enum, v: Value): Result<HardState, Error> {
    match v
    case Num(x) =>
      if num == 1 then Ok(h.(term := x)) else if num == 2 then Ok(h.(vote := x)) else Ok(h.(commit := x))
    case _ => Err(WrongWireType)
  }

  const HardStateSchema: Schema<HardState> :=
    Schema(num => if 1 <= num <= 3 then Single else Unknown, HardStatePut,
           (h: HardState, bs) => h.(unrecognized := h.unrecognized + bs))

  // ------------------------------------------------------------- ConfChange

  function ConfChangeOut(c: ConfChange): Out {
    Scalar(1, c.id, Scalar(2, FromInt32(c.typ), Scalar(3, c.nodeID, OptBytes(4, c.context, Done))))
  }

  function ConfChangeSize(c: ConfChange): nat {
    1 + Sov(c.id) + 1 + Sov(FromInt32(c.typ)) + 1 + Sov(c.nodeID) + OptSize(c.context) + |c.unrecognized|
  }

  function EncodeConfChange(c: ConfChange): seq<Byte> {
    Emit(ConfChangeOut(c)) + c.unrecognized
  }

  function ConfChangePut(c: ConfChange, num: Enum, v: Value): Result<ConfChange, Error> {
    match v
    case Num(x) =>
      if num == 1 then Ok(c.(id := x))
      else if num == 2 then Ok(c.(typ := ToInt32(x)))
      else Ok(c.(nodeID := x))
    case Blob(data) => Ok(c.(context := Some(data)))
    case Nums(_) => Err(WrongWireType)
  }

  const ConfChangeSchema: Schema<ConfChange> :=
    Schema(EntryKind, ConfChangePut, (c: ConfChange, bs) => c.(unrecognized := c.unrecognized + bs))

  // -------------------------------------------------------------- ConfState

  function WordsOut(num: FieldNum, ws: seq<Word>, next: Out): Out {
    if ws == [] then next else Scalar(num, ws[0], WordsOut(num, ws[1..], next))
  }

  function WordsSize(ws: seq<Word>): nat {
    if ws == [] then 0 else 1 + Sov(ws[0]) + WordsSize(ws[1..])
  }

  function ConfStateOut(c: ConfState): Out {
    WordsOut(1, c.voters,
    WordsOut(2, c.learners,
    WordsOut(3, c.votersOutgoing,
    WordsOut(4, c.learnersNext,
    Scalar(5, Bit(c.autoLeave), Done)))))
  }

  function ConfStateSize(c: ConfState): nat {
    WordsSize(c.voters) + WordsSize(c.learners) + WordsSize(c.votersOutgoing) + WordsSize(c.learnersNext)
    + 2 + |c.unrecognized|
  }

  function EncodeConfState(c: ConfState): seq<Byte> {
    Emit(ConfStateOut(c)) + c.unrecognized
  }

  function ConfStateKind(num: Enum): Kind {
    if 1 <= num <= 4 then Repeated else if num == 5 then Single else Unknown
  }

  /** The repeated fields 1 to 4 grow at the end. */
  function AddWords(c: ConfState, num: FieldNum, ws: seq<Word>): ConfState
    requires num <= 4
  {
    if num == 1 then c.(voters := c.voters + ws)
    else if num == 2 then c.(learners := c.learners + ws)
    else if num == 3 then c.(votersOutgoing := c.votersOutgoing + ws)
    else c.(learnersNext := c.learnersNext + ws)
  }

  function ConfStatePut(c: ConfState, num: Enum, v: Value): Result<ConfState, Error> {
    if 1 <= num <= 4 then
      match v
      case Num(x) => Ok(AddWords(c, num, [x]))
      case Nums(xs) => Ok(AddWords(c, num, xs))
      case Blob(_) => Err(WrongWireType)
    else if v.Num? then Ok(c.(autoLeave := v.v != 0))
    else Err(WrongWireType)
  }

  const ConfStateSchema: Schema<ConfState> :=
    Schema(ConfStateKind, ConfStatePut, (c: ConfState, bs) => c.(unrecognized := c.unrecognized + bs))

  // ------------------------------------------------------- SnapshotMetadata

  function MetadataOut(m: SnapshotMetadata): Out {
    Bytes(1, EncodeConfState(m.confState), Scalar(2, m.index, Scalar(3, m.term, Done)))
  }

  function MetadataSize(m: SnapshotMetadata): nat {
    var l := ConfStateSize(m.confState);
    1 + l + Sov(l) + 1 + Sov(m.index) + 1 + Sov(m.term) + |m.unrecognized|
  }

  function EncodeMetadata(m: SnapshotMetadata): seq<Byte> {
    Emit(MetadataOut(m)) + m.unrecognized
  }

  function MetadataPut(m: SnapshotMetadata, num: Enum, v: Value): Result<SnapshotMetadata, Error> {
    match v
    case Blob(data) =>
      (match Decode(ConfStateSchema, m.confState, data)
       case Err(e) => Err(e)
       case Ok(c) => Ok(m.(confState := c)))
    case Num(x) => if num == 2 then Ok(m.(index := x)) else Ok(m.(term := x))
    case Nums(_) => Err(WrongWireType)
  }

  const MetadataSchema: Schema<SnapshotMetadata> :=
    Schema(num => if num == 1 then Delimited else if 2 <= num <= 3 then Single else Unknown, MetadataPut,
           (m: SnapshotMetadata, bs) => m.(unrecognized := m.unrecognized + bs))

  // --------------------------------------------------------------- Snapshot

  function SnapshotOut(s: Snapshot): Out {
    OptBytes(1, s.data, Bytes(2, EncodeMetadata(s.metadata), Done))
  }

  function SnapshotSize(s: Snapshot): nat {
    var l := MetadataSize(s.metadata);
    OptSize(s.data) + 1 + l + Sov(l) + |s.unrecognized|
  }

  function EncodeSnapshot(s: Snapshot): seq<Byte> {
    Emit(SnapshotOut(s)) + s.unrecognized
  }

  function SnapshotPut(s: Snapshot, num: Enum, v: Value): Result<Snapshot, Error> {
    match v
    case Blob(data) =>
      if num == 1 then Ok(s.(data := Some(data)))
      else (match Decode(MetadataSchema, s.metadata, data)
            case Err(e) => Err(e)
            case Ok(m) => Ok(s.(metadata := m)))
    case _ => Err(WrongWireType)
  }

  const SnapshotSchema: Schema<Snapshot> :=
    Schema(num => if 1 <= num <= 2 then Delimited else Unknown, SnapshotPut,
           (s: Snapshot, bs) => s.(unrecognized := s.unrecognized + bs))

  // ---------------------------------------------------------------- Message

  function EntriesOut(es: seq<Entry>, next: Out): Out {
    if es == [] then next else Bytes(7, EncodeEntry(es[0]), EntriesOut(es[1..], next))
  }

  function EntriesSize(es: seq<Entry>): nat {
    if es == [] then 0
    else var l := EntrySize(es[0]); 1 + l + Sov(l) + EntriesSize(es[1..])
  }

  function MessageTail(m: Message): Out {
    Scalar(8, m.commit, Bytes(9, EncodeSnapshot(m.snapshot),
    Scalar(10, Bit(m.reject), Scalar(11, m.rejectHint, OptBytes(12, m.context, Done)))))
  }

  function MessageOut(m: Message): Out {
    Scalar(1, FromInt32(m.typ), Scalar(2, m.to, Scalar(3, m.from, Scalar(4, m.term,
    Scalar(5, m.logTerm, Scalar(6, m.index, EntriesOut(m.entries, MessageTail(m))))))))
  }

  function MessageSize(m: Message): nat {
    var l := SnapshotSize(m.snapshot);
    1 + Sov(FromInt32(m.typ)) + 1 + Sov(m.to) + 1 + Sov(m.from) + 1 + Sov(m.term)
    + 1 + Sov(m.logTerm) + 1 + Sov(m.index) + EntriesSize(m.entries)
    + 1 + Sov(m.commit) + 1 + l + Sov(l) + 2 + 1 + Sov(m.rejectHint)
    + OptSize(m.context) + |m.unrecognized|
  }

  function EncodeMessage(m: Message): seq<Byte> {
    Emit(MessageOut(m)) + m.unrecognized
  }

  function MessageKind(num: Enum): Kind {
    if num == 7 || num == 9 || num == 12 then Delimited
    else if 1 <= num <= 11 then Single
    else Unknown
  }

  function MessagePutBlob(m: Message, num: Enum, data: seq<Byte>): Result<Message, Error> {
    if num == 7 then
      (match Decode(EntrySchema, NoEntry, data)
       case Err(e) => Err(e)
       case Ok(e) => Ok(m.(entries := m.entries + [e])))
    else if num == 9 then
      (match Decode(SnapshotSchema, m.snapshot, data)
       case Err(e) => Err(e)
       case Ok(s) => Ok(m.(snapshot := s)))
    else Ok(m.(context := Some(data)))
  }

  function MessagePut(m: Message, num: Enum, v: Value): Result<Message, Error> {
    match v
    case Blob(data) => MessagePutBlob(m, num, data)
    case Num(x) =>
      if num == 1 then Ok(m.(typ := ToInt32(x)))
      else if num == 2 then Ok(m.(to := x))
      else if num == 3 then Ok(m.(from := x))
      else if num == 4 then Ok(m.(term := x))
      else if num == 5 then Ok(m.(logTerm := x))
      else if num == 6 then Ok(m.(index := x))
      else if num == 8 then Ok(m.(commit := x))
      else if num == 10 then Ok(m.(reject := x != 0))
      else Ok(m.(rejectHint := x))
    case Nums(_) => Err(WrongWireType)
  }

  const MessageSchema: Schema<Message> :=
    Schema(MessageKind, MessagePut, (m: Message, bs) => m.(unrecognized := m.unrecognized + bs))
}
