/**
 Size() is exact and Unmarshal inverts Marshal, for every message type, including nested messages
 and well-formed runs of unrecognised fields at every level.
 */
module RaftPbRoundTrip {
  import opened Prelude
  import opened Wire
  import opened RaftPb

  // ------------------------------------------------------------------ sizes

  lemma EmitScalarSize(num: FieldNum, v: Word)
    ensures |EmitScalar(num, v)| == 1 + Sov(v)
  {
    VarintLength(v);
  }

  lemma EmitBytesSize(num: FieldNum, data: seq<Byte>)
    ensures |EmitBytes(num, data)| == 1 + |data| + Sov(|data|)
  {
    VarintLength(|data|);
  }

  lemma OptBytesSize(num: FieldNum, data: Option<seq<Byte>>, next: Out)
    ensures |Emit(OptBytes(num, data, next))| == OptSize(data) + |Emit(next)|
  {
    if data.Some? { EmitBytesSize(num, data.value); }
  }

  lemma EntrySizeExact(e: Entry)
    ensures |EncodeEntry(e)| == EntrySize(e)
  {
    EmitScalarSize(1, FromInt32(e.typ));
    EmitScalarSize(2, e.term);
    EmitScalarSize(3, e.index);
    OptBytesSize(4, e.data, Done);
    var o := EntryOut(e);
    assert |Emit(o.next.next)| == 1 + Sov(e.index) + OptSize(e.data);
    assert |Emit(o.next)| == 1 + Sov(e.term) + |Emit(o.next.next)|;
  }

  lemma HardStateSizeExact(h: HardState)
    ensures |EncodeHardState(h)| == HardStateSize(h)
  {
    EmitScalarSize(1, h.term);
    EmitScalarSize(2, h.vote);
    EmitScalarSize(3, h.commit);
    var o := HardStateOut(h);
    assert |Emit(o.next.next)| == 1 + Sov(h.commit);
    assert |Emit(o.next)| == 1 + Sov(h.vote) + |Emit(o.next.next)|;
  }

  lemma ConfChangeSizeExact(c: ConfChange)
    ensures |EncodeConfChange(c)| == ConfChangeSize(c)
  {
    EmitScalarSize(1, c.id);
    EmitScalarSize(2, FromInt32(c.typ));
    EmitScalarSize(3, c.nodeID);
    OptBytesSize(4, c.context, Done);
    var o := ConfChangeOut(c);
    assert |Emit(o.next.next)| == 1 + Sov(c.nodeID) + OptSize(c.context);
    assert |Emit(o.next)| == 1 + Sov(FromInt32(c.typ)) + |Emit(o.next.next)|;
  }

  lemma {:induction false} WordsOutSize(num: FieldNum, ws: seq<Word>, next: Out)
    ensures |Emit(WordsOut(num, ws, next))| == WordsSize(ws) + |Emit(next)|
    decreases |ws|
  {
    if ws != [] {
      WordsOutSize(num, ws[1..], next);
      EmitScalarSize(num, ws[0]);
    }
  }

  lemma ConfStateSizeExact(c: ConfState)
    ensures |EncodeConfState(c)| == ConfStateSize(c)
  {
    var o5 := Scalar(5, Bit(c.autoLeave), Done);
    var o4 := WordsOut(4, c.learnersNext, o5);
    var o3 := WordsOut(3, c.votersOutgoing, o4);
    var o2 := WordsOut(2, c.learners, o3);
    WordsOutSize(4, c.learnersNext, o5);
    WordsOutSize(3, c.votersOutgoing, o4);
    WordsOutSize(2, c.learners, o3);
    WordsOutSize(1, c.voters, o2);
    assert |Emit(o5)| == 2;
  }

  lemma MetadataSizeExact(m: SnapshotMetadata)
    ensures |EncodeMetadata(m)| == MetadataSize(m)
  {
    ConfStateSizeExact(m.confState);
    EmitBytesSize(1, EncodeConfState(m.confState));
    EmitScalarSize(2, m.index);
    EmitScalarSize(3, m.term);
    var o := MetadataOut(m);
    assert |Emit(o.next.next)| == 1 + Sov(m.term);
    assert |Emit(o.next)| == 1 + Sov(m.index) + |Emit(o.next.next)|;
  }

  lemma SnapshotSizeExact(s: Snapshot)
    ensures |EncodeSnapshot(s)| == SnapshotSize(s)
  {
    MetadataSizeExact(s.metadata);
    EmitBytesSize(2, EncodeMetadata(s.metadata));
    OptBytesSize(1, s.data, Bytes(2, EncodeMetadata(s.metadata), Done));
  }

  lemma {:induction false} EntriesOutSize(es: seq<Entry>, next: Out)
    ensures |Emit(EntriesOut(es, next))| == EntriesSize(es) + |Emit(next)|
    decreases |es|
  {
    if es != [] {
      EntriesOutSize(es[1..], next);
      EntrySizeExact(es[0]);
      EmitBytesSize(7, EncodeEntry(es[0]));
    }
  }

  lemma MessageTailSize(m: Message)
    ensures |Emit(MessageTail(m))|
         == 1 + Sov(m.commit) + 1 + SnapshotSize(m.snapshot) + Sov(SnapshotSize(m.snapshot)) + 2
          + 1 + Sov(m.rejectHint) + OptSize(m.context)
  {
    var o11 := Scalar(11, m.rejectHint, OptBytes(12, m.context, Done));
    var o10 := Scalar(10, Bit(m.reject), o11);
    var o9 := Bytes(9, EncodeSnapshot(m.snapshot), o10);
    SnapshotSizeExact(m.snapshot);
    OptBytesSize(12, m.context, Done);
    EmitScalarSize(11, m.rejectHint);
    EmitScalarSize(10, Bit(m.reject));
    EmitBytesSize(9, EncodeSnapshot(m.snapshot));
    EmitScalarSize(8, m.commit);
    assert Emit(o11) == EmitScalar(11, m.rejectHint) + Emit(OptBytes(12, m.context, Done));
    assert Emit(o10) == EmitScalar(10, Bit(m.reject)) + Emit(o11);
    assert Emit(o9) == EmitBytes(9, EncodeSnapshot(m.snapshot)) + Emit(o10);
  }

  /** MarshalTo of a message writes exactly Size() bytes. */
  lemma MessageSizeExact(m: Message)
    ensures |EncodeMessage(m)| == MessageSize(m)
  {
    var o7 := EntriesOut(m.entries, MessageTail(m));
    var o6 := Scalar(6, m.index, o7);
    var o5 := Scalar(5, m.logTerm, o6);
    var o4 := Scalar(4, m.term, o5);
    var o3 := Scalar(3, m.from, o4);
    var o2 := Scalar(2, m.to, o3);
    MessageTailSize(m);
    EntriesOutSize(m.entries, MessageTail(m));
    EmitScalarSize(6, m.index);
    EmitScalarSize(5, m.logTerm);
    EmitScalarSize(4, m.term);
    EmitScalarSize(3, m.from);
    EmitScalarSize(2, m.to);
    EmitScalarSize(1, FromInt32(m.typ));
    assert |Emit(o6)| == 1 + Sov(m.index) + |Emit(o7)|;
    assert |Emit(o5)| == 1 + Sov(m.logTerm) + |Emit(o6)|;
    assert |Emit(o4)| == 1 + Sov(m.term) + |Emit(o5)|;
    assert |Emit(o3)| == 1 + Sov(m.from) + |Emit(o4)|;
    assert |Emit(o2)| == 1 + Sov(m.to) + |Emit(o3)|;
  }

  // ------------------------------------------------------------ round trips

  lemma EntryKeeps()
    ensures Keeps(EntrySchema)
  {
    forall m: Entry, a, b
      ensures EntrySchema.keep(EntrySchema.keep(m, a), b) == EntrySchema.keep(m, a + b)
    {
      Assoc(m.unrecognized, a, b);
    }
    assert forall m: Entry :: EntrySchema.keep(m, []) == m;
  }

  lemma HardStateKeeps()
    ensures Keeps(HardStateSchema)
  {
    forall m: HardState, a, b
      ensures HardStateSchema.keep(HardStateSchema.keep(m, a), b) == HardStateSchema.keep(m, a + b)
    {
      Assoc(m.unrecognized, a, b);
    }
    assert forall m: HardState :: HardStateSchema.keep(m, []) == m;
  }

  lemma ConfChangeKeeps()
    ensures Keeps(ConfChangeSchema)
  {
    forall m: ConfChange, a, b
      ensures ConfChangeSchema.keep(ConfChangeSchema.keep(m, a), b) == ConfChangeSchema.keep(m, a + b)
    {
      Assoc(m.unrecognized, a, b);
    }
    assert forall m: ConfChange :: ConfChangeSchema.keep(m, []) == m;
  }

  lemma ConfStateKeeps()
    ensures Keeps(ConfStateSchema)
  {
    forall m: ConfState, a, b
      ensures ConfStateSchema.keep(ConfStateSchema.keep(m, a), b) == ConfStateSchema.keep(m, a + b)
    {
      Assoc(m.unrecognized, a, b);
    }
    assert forall m: ConfState :: ConfStateSchema.keep(m, []) == m;
  }

  lemma MetadataKeeps()
    ensures Keeps(MetadataSchema)
  {
    forall m: SnapshotMetadata, a, b
      ensures MetadataSchema.keep(MetadataSchema.keep(m, a), b) == MetadataSchema.keep(m, a + b)
    {
      Assoc(m.unrecognized, a, b);
    }
    assert forall m: SnapshotMetadata :: MetadataSchema.keep(m, []) == m;
  }

  lemma SnapshotKeeps()
    ensures Keeps(SnapshotSchema)
  {
    forall m: Snapshot, a, b
      ensures SnapshotSchema.keep(SnapshotSchema.keep(m, a), b) == SnapshotSchema.keep(m, a + b)
    {
      Assoc(m.unrecognized, a, b);
    }
    assert forall m: Snapshot :: SnapshotSchema.keep(m, []) == m;
  }

  lemma MessageKeeps()
    ensures Keeps(MessageSchema)
  {
    forall m: Message, a, b
      ensures MessageSchema.keep(MessageSchema.keep(m, a), b) == MessageSchema.keep(m, a + b)
    {
      Assoc(m.unrecognized, a, b);
    }
    assert forall m: Message :: MessageSchema.keep(m, []) == m;
  }

  ghost predicate WfEntry(e: Entry) {
    UnknownRun(EntrySchema, e.unrecognized)
  }

  lemma LoadEntry(e: Entry)
    ensures Load(EntrySchema, NoEntry, EntryOut(e)) == Ok(e.(unrecognized := []))
  {
    hide Load;
    var e1 := NoEntry.(typ := e.typ);
    var e2 := e1.(term := e.term);
    var e3 := e2.(index := e.index);
    var o := EntryOut(e);
    LoadScalar(EntrySchema, NoEntry, 1, o.v, o.next, e1);
    LoadScalar(EntrySchema, e1, 2, e.term, o.next.next, e2);
    LoadScalar(EntrySchema, e2, 3, e.index, o.next.next.next, e3);
    LoadDone(EntrySchema, e.(unrecognized := []));
    if e.data.Some? { LoadBytes(EntrySchema, e3, 4, e.data.value, Done, e.(unrecognized := [])); }
  }

  /**
   Entries survive the wire: for every entry whose unrecognised bytes are a well-formed run u of
   fields Entry does not know, unmarshalling gives back the same entry, u included.
   */
  lemma EntryRoundTrip(e: Entry)
    requires WfEntry(e) && EntrySize(e) < U63
    ensures Decode(EntrySchema, NoEntry, EncodeEntry(e)) == Ok(e)
  {
    hide Decode, Emit, Load;
    EntrySizeExact(e);
    LoadEntry(e);
    EntryKeeps();
    DecodeEmittedThenUnknown(EntrySchema, NoEntry, EntryOut(e), e.(unrecognized := []), e.unrecognized);
    assert [] + e.unrecognized == e.unrecognized;
  }

  /** Appending an unknown run to a marshalled entry: it is kept, and marshalling again repeats the bytes. */
  lemma EntryKeepsUnknownFields(e: Entry, u: seq<Byte>)
    requires e.unrecognized == [] && UnknownRun(EntrySchema, u) && EntrySize(e) + |u| < U63
    ensures Decode(EntrySchema, NoEntry, EncodeEntry(e) + u) == Ok(e.(unrecognized := u))
    ensures EncodeEntry(e.(unrecognized := u)) == EncodeEntry(e) + u
  {
    hide Decode, Emit, Sov;
    EntryRoundTrip(e.(unrecognized := u));
    assert EntryOut(e.(unrecognized := u)) == EntryOut(e);
    assert Emit(EntryOut(e)) + [] == Emit(EntryOut(e));
  }

  lemma HardStateRoundTrip(h: HardState)
    requires UnknownRun(HardStateSchema, h.unrecognized) && HardStateSize(h) < U63
    ensures Decode(HardStateSchema, NoHardState, EncodeHardState(h)) == Ok(h)
  {
    hide Decode, Emit, Load;
    HardStateSizeExact(h);
    var h1 := NoHardState.(term := h.term);
    var h2 := h1.(vote := h.vote);
    var h3 := h2.(commit := h.commit);
    var o := HardStateOut(h);
    LoadScalar(HardStateSchema, NoHardState, 1, h.term, o.next, h1);
    LoadScalar(HardStateSchema, h1, 2, h.vote, o.next.next, h2);
    LoadScalar(HardStateSchema, h2, 3, h.commit, Done, h3);
    LoadDone(HardStateSchema, h3);
    HardStateKeeps();
    DecodeEmittedThenUnknown(HardStateSchema, NoHardState, o, h3, h.unrecognized);
    assert [] + h.unrecognized == h.unrecognized;
  }

  lemma LoadConfChange(c: ConfChange)
    ensures Load(ConfChangeSchema, NoConfChange, ConfChangeOut(c)) == Ok(c.(unrecognized := []))
  {
    hide Load;
    var c1 := NoConfChange.(id := c.id);
    var c2 := c1.(typ := c.typ);
    var c3 := c2.(nodeID := c.nodeID);
    var o := ConfChangeOut(c);
    LoadScalar(ConfChangeSchema, NoConfChange, 1, c.id, o.next, c1);
    LoadScalar(ConfChangeSchema, c1, 2, o.next.v, o.next.next, c2);
    LoadScalar(ConfChangeSchema, c2, 3, c.nodeID, o.next.next.next, c3);
    LoadDone(ConfChangeSchema, c.(unrecognized := []));
    if c.context.Some? { LoadBytes(ConfChangeSchema, c3, 4, c.context.value, Done, c.(unrecognized := [])); }
  }

  lemma ConfChangeRoundTrip(c: ConfChange)
    requires UnknownRun(ConfChangeSchema, c.unrecognized) && ConfChangeSize(c) < U63
    ensures Decode(ConfChangeSchema, NoConfChange, EncodeConfChange(c)) == Ok(c)
  {
    hide Decode, Emit, Load;
    ConfChangeSizeExact(c);
    LoadConfChange(c);
    ConfChangeKeeps();
    DecodeEmittedThenUnknown(ConfChangeSchema, NoConfChange, ConfChangeOut(c), c.(unrecognized := []), c.unrecognized);
    assert [] + c.unrecognized == c.unrecognized;
  }

  ghost predicate WfConfState(c: ConfState) {
    UnknownRun(ConfStateSchema, c.unrecognized)
  }

  lemma AddWordsTwice(c: ConfState, num: FieldNum, a: seq<Word>, b: seq<Word>)
    requires num <= 4
    ensures AddWords(AddWords(c, num, a), num, b) == AddWords(c, num, a + b)
    ensures AddWords(c, num, []) == c
  {
    Assoc(c.voters, a, b);
    Assoc(c.learners, a, b);
    Assoc(c.votersOutgoing, a, b);
    Assoc(c.learnersNext, a, b);
  }

  lemma {:induction false} LoadWords(c: ConfState, num: FieldNum, ws: seq<Word>, next: Out)
    requires num <= 4
    ensures Load(ConfStateSchema, c, WordsOut(num, ws, next)) == Load(ConfStateSchema, AddWords(c, num, ws), next)
    decreases |ws|
  {
    hide Load, AddWords;
    if ws == [] {
      AddWordsTwice(c, num, [], []);
    } else {
      var c1 := AddWords(c, num, [ws[0]]);
      LoadScalar(ConfStateSchema, c, num, ws[0], WordsOut(num, ws[1..], next), c1);
      LoadWords(c1, num, ws[1..], next);
      AddWordsTwice(c, num, [ws[0]], ws[1..]);
      assert [ws[0]] + ws[1..] == ws;
    }
  }

  lemma LoadConfState(c: ConfState)
    ensures Load(ConfStateSchema, NoConfState, ConfStateOut(c)) == Ok(c.(unrecognized := []))
  {
    hide Load, WordsOut;
    var o5 := Scalar(5, Bit(c.autoLeave), Done);
    var o4 := WordsOut(4, c.learnersNext, o5);
    var o3 := WordsOut(3, c.votersOutgoing, o4);
    var c1 := NoConfState.(voters := c.voters);
    var c2 := c1.(learners := c.learners);
    var c3 := c2.(votersOutgoing := c.votersOutgoing);
    var c4 := c3.(learnersNext := c.learnersNext);
    LoadWords(NoConfState, 1, c.voters, WordsOut(2, c.learners, o3));
    assert AddWords(NoConfState, 1, c.voters) == c1;
    LoadWords(c1, 2, c.learners, o3);
    assert AddWords(c1, 2, c.learners) == c2;
    LoadWords(c2, 3, c.votersOutgoing, o4);
    assert AddWords(c2, 3, c.votersOutgoing) == c3;
    LoadWords(c3, 4, c.learnersNext, o5);
    assert AddWords(c3, 4, c.learnersNext) == c4;
    LoadScalar(ConfStateSchema, c4, 5, Bit(c.autoLeave), Done, c.(unrecognized := []));
    LoadDone(ConfStateSchema, c.(unrecognized := []));
  }

  lemma ConfStateRoundTrip(c: ConfState)
    requires WfConfState(c) && ConfStateSize(c) < U63
    ensures Decode(ConfStateSchema, NoConfState, EncodeConfState(c)) == Ok(c)
  {
    hide Decode, Emit, Load;
    ConfStateSizeExact(c);
    LoadConfState(c);
    ConfStateKeeps();
    DecodeEmittedThenUnknown(ConfStateSchema, NoConfState, ConfStateOut(c), c.(unrecognized := []), c.unrecognized);
    assert [] + c.unrecognized == c.unrecognized;
  }

  // ------------------------------------------------------- known numbers

  /** Which field numbers each message type knows, and how it reads them. */
  lemma KnownNumbers(num: Enum)
    ensures EntrySchema.kind(num) == ConfChangeSchema.kind(num)
         == if num in {1, 2, 3} then Single else if num == 4 then Delimited else Unknown
    ensures HardStateSchema.kind(num) == if num in {1, 2, 3} then Single else Unknown
    ensures ConfStateSchema.kind(num)
         == if num in {1, 2, 3, 4} then Repeated else if num == 5 then Single else Unknown
    ensures MetadataSchema.kind(num) == if num == 1 then Delimited else if num in {2, 3} then Single else Unknown
    ensures SnapshotSchema.kind(num) == if num in {1, 2} then Delimited else Unknown
    ensures MessageSchema.kind(num)
         == if num in {1, 2, 3, 4, 5, 6, 8, 10, 11} then Single
            else if num in {7, 9, 12} then Delimited else Unknown
  {
  }

  /** A number field that is put into a message. */
  lemma ScalarDecodes<M>(s: Schema<M>, m: M, num: FieldNum, x: Word, m': M, rest: seq<Byte>)
    requires s.kind(num) == Single && s.put(m, num, Num(x)) == Ok(m')
    ensures Decode(s, m, EmitScalar(num, x) + rest) == Decode(s, m', rest)
  {
    hide Decode, Varint, ReadValue;
    ReadScalar(Single, x, rest);
    DecodeKnown(s, m, num, 0, Num(x), Varint(x), rest);
  }

  /** A boolean field is true for every number but 0. */
  lemma AnyNumberIsTrue(m: Message, c: ConfState, x: Word, rest: seq<Byte>)
    requires x != 0
    ensures Decode(MessageSchema, m, EmitScalar(10, x) + rest) == Decode(MessageSchema, m.(reject := true), rest)
    ensures Decode(ConfStateSchema, c, EmitScalar(5, x) + rest) == Decode(ConfStateSchema, c.(autoLeave := true), rest)
  {
    assert MessageSchema.put(m, 10, Num(x)) == Ok(m.(reject := true)) && MessageSchema.kind(10) == Single;
    assert ConfStateSchema.put(c, 5, Num(x)) == Ok(c.(autoLeave := true)) && ConfStateSchema.kind(5) == Single;
    hide *;
    ScalarDecodes(MessageSchema, m, 10, x, m.(reject := true), rest);
    ScalarDecodes(ConfStateSchema, c, 5, x, c.(autoLeave := true), rest);
  }

  // ------------------------------------------------------- packed fields

  /** The words of a packed field, one varint after the other. */
  function Pack(ws: seq<Word>): seq<Byte> {
    if ws == [] then [] else Varint(ws[0]) + Pack(ws[1..])
  }

  lemma ReadPackedOne(w: Word, rest: seq<Byte>, length: int)
    requires length > 0 && ReadPacked(rest, length - |Varint(w)|).Ok?
    ensures var t := ReadPacked(rest, length - |Varint(w)|).value;
      ReadPacked(Varint(w) + rest, length) == Ok(Taken([w] + t.value, |Varint(w)| + t.n))
  {
    hide Varint, ReadVarint;
    VarintRoundTrip(w, rest);
    VarintLength(w);
    TakeDrop(Varint(w), rest);
  }

  lemma {:induction false} ReadPackedWords(ws: seq<Word>, rest: seq<Byte>)
    ensures ReadPacked(Pack(ws) + rest, |Pack(ws)|) == Ok(Taken(ws, |Pack(ws)|))
    decreases |ws|
  {
    if ws != [] {
      var v, tail := Varint(ws[0]), Pack(ws[1..]);
      assert Pack(ws) == v + tail && |v| > 0;
      hide *;
      ReadPackedWords(ws[1..], rest);
      ReadPackedOne(ws[0], tail + rest, |v| + |tail|);
      Assoc(v, tail, rest);
      assert [ws[0]] + ws[1..] == ws;
    }
  }

  lemma ReadPackedField(ws: seq<Word>, rest: seq<Byte>)
    requires |Pack(ws)| < U63
    ensures var body := Varint(|Pack(ws)|) + Pack(ws);
      ReadValue(Repeated, 2, body + rest) == Ok(Taken(Nums(ws), |body|))
  {
    hide Varint, ReadVarint, ReadPacked, Pack;
    var l, data := Varint(|Pack(ws)|), Pack(ws);
    Assoc(l, data, rest);
    VarintRoundTrip(|data|, data + rest);
    VarintLength(|data|);
    TakeDrop(l, data + rest);
    ReadPackedWords(ws, rest);
  }

  lemma PackedDecodes(c: ConfState, num: FieldNum, ws: seq<Word>, rest: seq<Byte>)
    requires num <= 4 && |Pack(ws)| < U63
    ensures Decode(ConfStateSchema, c, EmitBytes(num, Pack(ws)) + rest)
         == Decode(ConfStateSchema, AddWords(c, num, ws), rest)
  {
    hide Decode, Pack, ReadValue, Varint, AddWords;
    ReadPackedField(ws, rest);
    DecodeKnown(ConfStateSchema, c, num, 2, Nums(ws), Varint(|Pack(ws)|) + Pack(ws), rest);
  }

  lemma UnpackedDecodes(c: ConfState, num: FieldNum, ws: seq<Word>, rest: seq<Byte>)
    requires num <= 4 && WordsSize(ws) < U63
    ensures Decode(ConfStateSchema, c, Emit(WordsOut(num, ws, Done)) + rest)
         == Decode(ConfStateSchema, AddWords(c, num, ws), rest)
  {
    assert Emit(Done) == [];
    hide *;
    WordsOutSize(num, ws, Done);
    LoadWords(c, num, ws, Done);
    LoadDone(ConfStateSchema, AddWords(c, num, ws));
    DecodeEmitted(ConfStateSchema, c, WordsOut(num, ws, Done), rest);
  }

  /**
   A reader takes a packed list and the same list sent one field at a time for the same, for each
   of the four lists of a ConfState and in front of any bytes.
   */
  lemma PackedIsUnpacked(c: ConfState, num: FieldNum, ws: seq<Word>, rest: seq<Byte>)
    requires num <= 4 && |Pack(ws)| < U63 && WordsSize(ws) < U63
    ensures Decode(ConfStateSchema, c, EmitBytes(num, Pack(ws)) + rest)
         == Decode(ConfStateSchema, AddWords(c, num, ws), rest)
         == Decode(ConfStateSchema, c, Emit(WordsOut(num, ws, Done)) + rest)
  {
    hide *;
    PackedDecodes(c, num, ws, rest);
    UnpackedDecodes(c, num, ws, rest);
  }

  ghost predicate WfMetadata(m: SnapshotMetadata) {
    WfConfState(m.confState) && UnknownRun(MetadataSchema, m.unrecognized)
  }

  lemma MetadataRoundTrip(m: SnapshotMetadata)
    requires WfMetadata(m) && MetadataSize(m) < U63
    ensures Decode(MetadataSchema, NoMetadata, EncodeMetadata(m)) == Ok(m)
  {
    hide Decode, Emit, Load, Sov, EncodeConfState, ConfStateSize;
    MetadataSizeExact(m);
    ConfStateRoundTrip(m.confState);
    var m1 := NoMetadata.(confState := m.confState);
    var m2 := m1.(index := m.index);
    var m3 := m2.(term := m.term);
    var o := MetadataOut(m);
    LoadBytes(MetadataSchema, NoMetadata, 1, o.data, o.next, m1);
    LoadScalar(MetadataSchema, m1, 2, m.index, o.next.next, m2);
    LoadScalar(MetadataSchema, m2, 3, m.term, Done, m3);
    LoadDone(MetadataSchema, m3);
    MetadataKeeps();
    DecodeEmittedThenUnknown(MetadataSchema, NoMetadata, o, m3, m.unrecognized);
    assert [] + m.unrecognized == m.unrecognized;
  }

  ghost predicate WfSnapshot(s: Snapshot) {
    WfMetadata(s.metadata) && UnknownRun(SnapshotSchema, s.unrecognized)
  }

  lemma SnapshotRoundTrip(s: Snapshot)
    requires WfSnapshot(s) && SnapshotSize(s) < U63
    ensures Decode(SnapshotSchema, NoSnapshot, EncodeSnapshot(s)) == Ok(s)
  {
    hide Decode, Emit, Load, Sov, EncodeMetadata, MetadataSize, WfMetadata;
    SnapshotSizeExact(s);
    MetadataRoundTrip(s.metadata);
    var o := SnapshotOut(s);
    var o2 := Bytes(2, EncodeMetadata(s.metadata), Done);
    var s1 := NoSnapshot.(data := s.data);
    var s2 := s1.(metadata := s.metadata);
    if s.data.Some? { LoadBytes(SnapshotSchema, NoSnapshot, 1, s.data.value, o2, s1); }
    LoadBytes(SnapshotSchema, s1, 2, o2.data, Done, s2);
    LoadDone(SnapshotSchema, s2);
    SnapshotKeeps();
    DecodeEmittedThenUnknown(SnapshotSchema, NoSnapshot, o, s2, s.unrecognized);
    assert [] + s.unrecognized == s.unrecognized;
  }

  ghost predicate WfMessage(m: Message) {
    && (forall i :: 0 <= i < |m.entries| ==> WfEntry(m.entries[i]))
    && WfSnapshot(m.snapshot)
    && UnknownRun(MessageSchema, m.unrecognized)
  }

  lemma {:induction false} LoadEntries(m: Message, es: seq<Entry>, next: Out)
    requires forall i :: 0 <= i < |es| ==> WfEntry(es[i])
    requires EntriesSize(es) < U63
    ensures Load(MessageSchema, m, EntriesOut(es, next))
         == Load(MessageSchema, m.(entries := m.entries + es), next)
    decreases |es|
  {
    hide Decode, Emit, Load, Sov, EntrySize, EncodeEntry, WfEntry;
    if es == [] {
      assert m.entries + es == m.entries;
    } else {
      EntryRoundTrip(es[0]);
      var m' := m.(entries := m.entries + [es[0]]);
      LoadBytes(MessageSchema, m, 7, EncodeEntry(es[0]), EntriesOut(es[1..], next), m');
      LoadEntries(m', es[1..], next);
      assert m'.entries + es[1..] == m.entries + es;
    }
  }

  lemma LoadTail(m: Message, m7: Message)
    requires WfSnapshot(m.snapshot) && SnapshotSize(m.snapshot) < U63
    requires m7 == NoMessage.(typ := m.typ, to := m.to, from := m.from, term := m.term,
                              logTerm := m.logTerm, index := m.index, entries := m.entries)
    ensures Load(MessageSchema, m7, MessageTail(m)) == Ok(m.(unrecognized := []))
  {
    hide Decode, Emit, Load, Sov, EncodeSnapshot, SnapshotSize, WfSnapshot;
    SnapshotRoundTrip(m.snapshot);
    var o := MessageTail(m);
    var m8 := m7.(commit := m.commit);
    var m9 := m8.(snapshot := m.snapshot);
    var m10 := m9.(reject := m.reject);
    var m11 := m10.(rejectHint := m.rejectHint);
    var m12 := m11.(context := m.context);
    LoadScalar(MessageSchema, m7, 8, m.commit, o.next, m8);
    LoadBytes(MessageSchema, m8, 9, o.next.data, o.next.next, m9);
    var o10 := o.next.next;
    LoadScalar(MessageSchema, m9, 10, Bit(m.reject), o10.next, m10);
    LoadScalar(MessageSchema, m10, 11, m.rejectHint, o10.next.next, m11);
    if m.context.Some? { LoadBytes(MessageSchema, m11, 12, m.context.value, Done, m12); }
    LoadDone(MessageSchema, m12);
  }

  lemma LoadMessage(m: Message)
    requires WfMessage(m) && EntriesSize(m.entries) < U63 && SnapshotSize(m.snapshot) < U63
    ensures Load(MessageSchema, NoMessage, MessageOut(m)) == Ok(m.(unrecognized := []))
  {
    hide Decode, Emit, Load, Sov, EntriesSize, SnapshotSize, WfSnapshot, MessageTail, EntriesOut;
    var o := MessageOut(m);
    var m1 := NoMessage.(typ := m.typ);
    var m2 := m1.(to := m.to);
    var m3 := m2.(from := m.from);
    var m4 := m3.(term := m.term);
    var m5 := m4.(logTerm := m.logTerm);
    var m6 := m5.(index := m.index);
    LoadScalar(MessageSchema, NoMessage, 1, o.v, o.next, m1);
    LoadScalar(MessageSchema, m1, 2, m.to, o.next.next, m2);
    var o3 := o.next.next;
    LoadScalar(MessageSchema, m2, 3, m.from, o3.next, m3);
    LoadScalar(MessageSchema, m3, 4, m.term, o3.next.next, m4);
    var o5 := o3.next.next;
    LoadScalar(MessageSchema, m4, 5, m.logTerm, o5.next, m5);
    LoadScalar(MessageSchema, m5, 6, m.index, o5.next.next, m6);
    LoadEntries(m6, m.entries, MessageTail(m));
    assert m6.entries + m.entries == m.entries;
    LoadTail(m, m6.(entries := m.entries));
  }

  /** Messages survive the wire, with every nested entry, snapshot, metadata and ConfState. */
  lemma MessageRoundTrip(m: Message)
    requires WfMessage(m) && MessageSize(m) < U63
    ensures Decode(MessageSchema, NoMessage, EncodeMessage(m)) == Ok(m)
  {
    hide Decode, Emit, Load, Sov, EntriesSize, SnapshotSize, MessageOut;
    MessageSizeExact(m);
    LoadMessage(m);
    MessageKeeps();
    DecodeEmittedThenUnknown(MessageSchema, NoMessage, MessageOut(m), m.(unrecognized := []), m.unrecognized);
    assert [] + m.unrecognized == m.unrecognized;
  }
}
