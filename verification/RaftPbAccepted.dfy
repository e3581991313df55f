/**
 What comes off the wire: whatever bytes Unmarshal accepts, the message it gives is one that
 survives being marshalled and unmarshalled again.
 */
module RaftPbAccepted {
  import opened Prelude
  import opened Wire
  import opened RaftPb
  import opened RaftPbRoundTrip

  // ------------------------------------------------------------ unknown runs

  function Snoc(fs: Fields, f: Field): Fields {
    match fs case FNil => FCons(f, FNil) case FCons(g, tail) => FCons(g, Snoc(tail, f))
  }

  /** The field carries a number that the message type does not know. */
  ghost predicate UnknownField<M>(s: Schema<M>, f: Field) {
    WfField(f) && ToInt32(VarintValue(f.tag) / 8) > 0 && s.kind(ToInt32(VarintValue(f.tag) / 8)) == Unknown
  }

  lemma {:induction false} SnocRun<M>(s: Schema<M>, fs: Fields, f: Field)
    requires WfFields(fs) && UnknownTo(s, fs) && UnknownField(s, f)
    ensures WfFields(Snoc(fs, f)) && UnknownTo(s, Snoc(fs, f)) && SerAll(Snoc(fs, f)) == SerAll(fs) + Ser(f)
    decreases fs
  {
    hide Ser, WfField;
    match fs
    case FNil =>
      assert Ser(f) + [] == [] + Ser(f);
    case FCons(g, tail) =>
      SnocRun(s, tail, f);
      Assoc(Ser(g), SerAll(tail), Ser(f));
  }

  lemma RunGrows<M>(s: Schema<M>, u: seq<Byte>, f: Field)
    requires UnknownRun(s, u) && UnknownField(s, f)
    ensures UnknownRun(s, u + Ser(f))
  {
    hide WfField;
    var fs :| WfFields(fs) && UnknownTo(s, fs) && SerAll(fs) == u;
    SnocRun(s, fs, f);
  }

  lemma EmptyRun<M>(s: Schema<M>)
    ensures UnknownRun(s, [])
  {
    assert WfFields(FNil) && UnknownTo(s, FNil) && SerAll(FNil) == [];
  }

  /** What Unmarshal skips and keeps is a field of the grammar. */
  lemma SkippedIsUnknown<M>(s: Schema<M>, bs: seq<Byte>) returns (f: Field)
    requires ReadVarint(bs).Ok? && Skip(bs).Ok? && Skip(bs).value <= |bs| && ReadVarint(bs).value.v % 8 != 4
    requires var num := ToInt32(ReadVarint(bs).value.v / 8); num > 0 && s.kind(num) == Unknown
    ensures UnknownField(s, f) && Ser(f) == bs[..Skip(bs).value]
  {
    hide Skip, ReadVarint, Ser, WfField;
    f := SkipAcceptsOnlyFields(bs);
    var k := Skip(bs).value;
    SkipStepsOverField(f, bs[k..]);
    assert bs[..k] + bs[k..] == bs;
  }

  // --------------------------------------------------- invariants of decoding

  /** P holds of every message that the field loop makes out of one of which P holds. */
  ghost predicate Preserved<M(!new)>(s: Schema<M>, P: M -> bool) {
    && (forall m, num, v :: P(m) && s.put(m, num, v).Ok? ==> P(s.put(m, num, v).value))
    && (forall m, f :: P(m) && UnknownField(s, f) ==> P(s.keep(m, Ser(f))))
  }

  lemma {:induction false} DecodePreserves<M(!new)>(s: Schema<M>, P: M -> bool, m: M, bs: seq<Byte>)
    requires Preserved(s, P) && P(m) && Decode(s, m, bs).Ok?
    ensures P(Decode(s, m, bs).value)
    decreases |bs|
  {
    if bs != [] {
      hide Skip, ReadVarint, ReadValue, Ser, WfField;
      var t := DecodeField(s, m, bs).value;
      var tag := ReadVarint(bs).value;
      if s.kind(ToInt32(tag.v / 8)) == Unknown {
        var f := SkippedIsUnknown(s, bs);
        assert t.value == s.keep(m, Ser(f));
      }
      hide DecodeField;
      DecodePreserves(s, P, t.value, bs[t.n..]);
    }
  }

  // ------------------------------------------------------------ the messages

  lemma EntryPreserved()
    ensures Preserved(EntrySchema, (e: Entry) => WfEntry(e))
  {
    hide Ser, WfField, UnknownRun;
    forall m: Entry, f | WfEntry(m) && UnknownField(EntrySchema, f) ensures WfEntry(EntrySchema.keep(m, Ser(f))) {
      RunGrows(EntrySchema, m.unrecognized, f);
    }
  }

  /** Every entry that comes off the wire is well-formed, and marshalling it does not change what it says. */
  lemma AcceptedEntry(bs: seq<Byte>)
    requires Decode(EntrySchema, NoEntry, bs).Ok?
    ensures var e := Decode(EntrySchema, NoEntry, bs).value;
      WfEntry(e) && (EntrySize(e) < U63 ==> Decode(EntrySchema, NoEntry, EncodeEntry(e)) == Ok(e))
  {
    EmptyRun(EntrySchema);
    EntryPreserved();
    DecodePreserves(EntrySchema, (e: Entry) => WfEntry(e), NoEntry, bs);
    hide *;
    var e := Decode(EntrySchema, NoEntry, bs).value;
    if EntrySize(e) < U63 { EntryRoundTrip(e); }
  }

  ghost predicate WfHardState(h: HardState) {
    UnknownRun(HardStateSchema, h.unrecognized)
  }

  ghost predicate WfConfChange(c: ConfChange) {
    UnknownRun(ConfChangeSchema, c.unrecognized)
  }

  lemma HardStatePreserved()
    ensures Preserved(HardStateSchema, (m: HardState) => WfHardState(m))
  {
    hide Ser, WfField, UnknownRun;
    forall m: HardState, f | WfHardState(m) && UnknownField(HardStateSchema, f)
      ensures WfHardState(HardStateSchema.keep(m, Ser(f)))
    {
      RunGrows(HardStateSchema, m.unrecognized, f);
    }
  }

  lemma AcceptedHardState(bs: seq<Byte>)
    requires Decode(HardStateSchema, NoHardState, bs).Ok?
    ensures var m := Decode(HardStateSchema, NoHardState, bs).value;
      && WfHardState(m)
      && (HardStateSize(m) < U63 ==> Decode(HardStateSchema, NoHardState, EncodeHardState(m)) == Ok(m))
  {
    EmptyRun(HardStateSchema);
    HardStatePreserved();
    DecodePreserves(HardStateSchema, (m: HardState) => WfHardState(m), NoHardState, bs);
    hide *;
    var m := Decode(HardStateSchema, NoHardState, bs).value;
    if HardStateSize(m) < U63 { HardStateRoundTrip(m); }
  }

  lemma ConfChangePreserved()
    ensures Preserved(ConfChangeSchema, (m: ConfChange) => WfConfChange(m))
  {
    hide Ser, WfField, UnknownRun;
    forall m: ConfChange, f | WfConfChange(m) && UnknownField(ConfChangeSchema, f)
      ensures WfConfChange(ConfChangeSchema.keep(m, Ser(f)))
    {
      RunGrows(ConfChangeSchema, m.unrecognized, f);
    }
  }

  lemma AcceptedConfChange(bs: seq<Byte>)
    requires Decode(ConfChangeSchema, NoConfChange, bs).Ok?
    ensures var m := Decode(ConfChangeSchema, NoConfChange, bs).value;
      && WfConfChange(m)
      && (ConfChangeSize(m) < U63 ==> Decode(ConfChangeSchema, NoConfChange, EncodeConfChange(m)) == Ok(m))
  {
    EmptyRun(ConfChangeSchema);
    ConfChangePreserved();
    DecodePreserves(ConfChangeSchema, (m: ConfChange) => WfConfChange(m), NoConfChange, bs);
    hide *;
    var m := Decode(ConfChangeSchema, NoConfChange, bs).value;
    if ConfChangeSize(m) < U63 { ConfChangeRoundTrip(m); }
  }

  lemma ConfStatePreserved()
    ensures Preserved(ConfStateSchema, (m: ConfState) => WfConfState(m))
  {
    hide Ser, WfField, UnknownRun;
    forall m: ConfState, f | WfConfState(m) && UnknownField(ConfStateSchema, f)
      ensures WfConfState(ConfStateSchema.keep(m, Ser(f)))
    {
      RunGrows(ConfStateSchema, m.unrecognized, f);
    }
  }

  lemma AcceptedConfState(bs: seq<Byte>)
    requires Decode(ConfStateSchema, NoConfState, bs).Ok?
    ensures var m := Decode(ConfStateSchema, NoConfState, bs).value;
      WfConfState(m) && (ConfStateSize(m) < U63 ==> Decode(ConfStateSchema, NoConfState, EncodeConfState(m)) == Ok(m))
  {
    EmptyRun(ConfStateSchema);
    ConfStatePreserved();
    DecodePreserves(ConfStateSchema, (m: ConfState) => WfConfState(m), NoConfState, bs);
    hide *;
    var m := Decode(ConfStateSchema, NoConfState, bs).value;
    if ConfStateSize(m) < U63 { ConfStateRoundTrip(m); }
  }

  lemma NothingIsWellFormed()
    ensures WfEntry(NoEntry) && WfConfState(NoConfState) && WfMetadata(NoMetadata)
    ensures WfSnapshot(NoSnapshot) && WfMessage(NoMessage)
  {
    EmptyRun(EntrySchema);
    EmptyRun(ConfStateSchema);
    EmptyRun(MetadataSchema);
    EmptyRun(SnapshotSchema);
    EmptyRun(MessageSchema);
  }

  lemma MetadataPreserved()
    ensures Preserved(MetadataSchema, (m: SnapshotMetadata) => WfMetadata(m))
  {
    hide Ser, WfField, UnknownRun, Decode;
    forall m: SnapshotMetadata, f | WfMetadata(m) && UnknownField(MetadataSchema, f)
      ensures WfMetadata(MetadataSchema.keep(m, Ser(f)))
    {
      RunGrows(MetadataSchema, m.unrecognized, f);
    }
    ConfStatePreserved();
    forall m: SnapshotMetadata, data | WfMetadata(m) && Decode(ConfStateSchema, m.confState, data).Ok?
      ensures WfConfState(Decode(ConfStateSchema, m.confState, data).value)
    {
      DecodePreserves(ConfStateSchema, (c: ConfState) => WfConfState(c), m.confState, data);
    }
  }

  lemma AcceptedMetadata(bs: seq<Byte>)
    requires Decode(MetadataSchema, NoMetadata, bs).Ok?
    ensures var m := Decode(MetadataSchema, NoMetadata, bs).value;
      WfMetadata(m) && (MetadataSize(m) < U63 ==> Decode(MetadataSchema, NoMetadata, EncodeMetadata(m)) == Ok(m))
  {
    NothingIsWellFormed();
    MetadataPreserved();
    DecodePreserves(MetadataSchema, (m: SnapshotMetadata) => WfMetadata(m), NoMetadata, bs);
    hide *;
    var m := Decode(MetadataSchema, NoMetadata, bs).value;
    if MetadataSize(m) < U63 { MetadataRoundTrip(m); }
  }

  lemma SnapshotPreserved()
    ensures Preserved(SnapshotSchema, (m: Snapshot) => WfSnapshot(m))
  {
    hide Ser, WfField, UnknownRun, Decode;
    forall m: Snapshot, f | WfSnapshot(m) && UnknownField(SnapshotSchema, f)
      ensures WfSnapshot(SnapshotSchema.keep(m, Ser(f)))
    {
      RunGrows(SnapshotSchema, m.unrecognized, f);
    }
    MetadataPreserved();
    forall m: Snapshot, data | WfSnapshot(m) && Decode(MetadataSchema, m.metadata, data).Ok?
      ensures WfMetadata(Decode(MetadataSchema, m.metadata, data).value)
    {
      DecodePreserves(MetadataSchema, (d: SnapshotMetadata) => WfMetadata(d), m.metadata, data);
    }
  }

  lemma AcceptedSnapshot(bs: seq<Byte>)
    requires Decode(SnapshotSchema, NoSnapshot, bs).Ok?
    ensures var m := Decode(SnapshotSchema, NoSnapshot, bs).value;
      WfSnapshot(m) && (SnapshotSize(m) < U63 ==> Decode(SnapshotSchema, NoSnapshot, EncodeSnapshot(m)) == Ok(m))
  {
    NothingIsWellFormed();
    SnapshotPreserved();
    DecodePreserves(SnapshotSchema, (m: Snapshot) => WfSnapshot(m), NoSnapshot, bs);
    hide *;
    var m := Decode(SnapshotSchema, NoSnapshot, bs).value;
    if SnapshotSize(m) < U63 { SnapshotRoundTrip(m); }
  }

  lemma MessagePutBlobPreserves(m: Message, num: Enum, data: seq<Byte>)
    requires WfMessage(m) && MessagePutBlob(m, num, data).Ok?
    ensures WfMessage(MessagePutBlob(m, num, data).value)
  {
    if num == 7 {
      AcceptedEntry(data);
    } else if num == 9 {
      SnapshotPreserved();
      DecodePreserves(SnapshotSchema, (s: Snapshot) => WfSnapshot(s), m.snapshot, data);
    }
  }

  lemma MessagePreserved()
    ensures Preserved(MessageSchema, (m: Message) => WfMessage(m))
  {
    hide Ser, WfField, UnknownRun, Decode;
    forall m: Message, f | WfMessage(m) && UnknownField(MessageSchema, f)
      ensures WfMessage(MessageSchema.keep(m, Ser(f)))
    {
      RunGrows(MessageSchema, m.unrecognized, f);
    }
    forall m: Message, num, v | WfMessage(m) && MessageSchema.put(m, num, v).Ok?
      ensures WfMessage(MessageSchema.put(m, num, v).value)
    {
      hide MessagePutBlob;
      if v.Blob? { MessagePutBlobPreserves(m, num, v.data); }
    }
  }

  lemma AcceptedMessage(bs: seq<Byte>)
    requires Decode(MessageSchema, NoMessage, bs).Ok?
    ensures var m := Decode(MessageSchema, NoMessage, bs).value;
      WfMessage(m) && (MessageSize(m) < U63 ==> Decode(MessageSchema, NoMessage, EncodeMessage(m)) == Ok(m))
  {
    NothingIsWellFormed();
    MessagePreserved();
    DecodePreserves(MessageSchema, (m: Message) => WfMessage(m), NoMessage, bs);
    hide *;
    var m := Decode(MessageSchema, NoMessage, bs).value;
    if MessageSize(m) < U63 { MessageRoundTrip(m); }
  }
}
