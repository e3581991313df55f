/**
 Embedded messages merge: a snapshot, its metadata or their ConfState sent in two parts are read as
 if they had been sent in one.
 */
module RaftPbMerge {
  import opened Prelude
  import opened Wire
  import opened WireMerge
  import opened RaftPb

  /** A delimited field behind its tag and length. */
  lemma DelimitedDecodes<M>(s: Schema<M>, m: M, num: FieldNum, data: seq<Byte>, rest: seq<Byte>)
    requires |data| < U63 && s.kind(num) == Delimited && s.put(m, num, Blob(data)).Ok?
    ensures Decode(s, m, EmitBytes(num, data) + rest) == Decode(s, s.put(m, num, Blob(data)).value, rest)
  {
    hide Decode, Varint, ReadValue;
    ReadBytes(data, rest);
    DecodeKnown(s, m, num, 2, Blob(data), Varint(|data|) + data, rest);
  }

  /** Two parts and the whole, for any field that is decoded into what is there. */
  lemma TwoParts<M>(s: Schema<M>, m: M, num: FieldNum, a: seq<Byte>, b: seq<Byte>, rest: seq<Byte>)
    requires |a + b| < U63 && s.kind(num) == Delimited && s.put(m, num, Blob(a)).Ok?
    requires s.put(s.put(m, num, Blob(a)).value, num, Blob(b)).Ok?
    requires s.put(m, num, Blob(a + b)) == s.put(s.put(m, num, Blob(a)).value, num, Blob(b))
    ensures Decode(s, m, EmitBytes(num, a) + (EmitBytes(num, b) + rest))
         == Decode(s, m, EmitBytes(num, a + b) + rest)
  {
    hide Decode, EmitBytes;
    DelimitedDecodes(s, m, num, a, EmitBytes(num, b) + rest);
    DelimitedDecodes(s, s.put(m, num, Blob(a)).value, num, b, rest);
    DelimitedDecodes(s, m, num, a + b, rest);
  }

  lemma SnapshotMerges(m: Message, a: seq<Byte>, b: seq<Byte>, rest: seq<Byte>)
    requires |a + b| < U63 && Decode(SnapshotSchema, m.snapshot, a).Ok?
    requires Decode(SnapshotSchema, m.snapshot, a + b).Ok?
    ensures Decode(MessageSchema, m, EmitBytes(9, a) + (EmitBytes(9, b) + rest))
         == Decode(MessageSchema, m, EmitBytes(9, a + b) + rest)
  {
    hide Decode, EmitBytes;
    DecodeMerges(SnapshotSchema, m.snapshot, a, b);
    TwoParts(MessageSchema, m, 9, a, b, rest);
  }

  lemma MetadataMerges(s: Snapshot, a: seq<Byte>, b: seq<Byte>, rest: seq<Byte>)
    requires |a + b| < U63 && Decode(MetadataSchema, s.metadata, a).Ok?
    requires Decode(MetadataSchema, s.metadata, a + b).Ok?
    ensures Decode(SnapshotSchema, s, EmitBytes(2, a) + (EmitBytes(2, b) + rest))
         == Decode(SnapshotSchema, s, EmitBytes(2, a + b) + rest)
  {
    hide Decode, EmitBytes;
    DecodeMerges(MetadataSchema, s.metadata, a, b);
    TwoParts(SnapshotSchema, s, 2, a, b, rest);
  }

  lemma ConfStateMerges(m: SnapshotMetadata, a: seq<Byte>, b: seq<Byte>, rest: seq<Byte>)
    requires |a + b| < U63 && Decode(ConfStateSchema, m.confState, a).Ok?
    requires Decode(ConfStateSchema, m.confState, a + b).Ok?
    ensures Decode(MetadataSchema, m, EmitBytes(1, a) + (EmitBytes(1, b) + rest))
         == Decode(MetadataSchema, m, EmitBytes(1, a + b) + rest)
  {
    hide Decode, EmitBytes;
    DecodeMerges(ConfStateSchema, m.confState, a, b);
    TwoParts(MetadataSchema, m, 1, a, b, rest);
  }
}
