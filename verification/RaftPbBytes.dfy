/**
 The bytes of every raft message, written out: the tags of raft.pb.go in their order, each followed
 by what it introduces. Sizes and round trips alone would also hold of other numbers and orders.
 */
module RaftPbBytes {
  import opened Prelude
  import opened Wire
  import opened RaftPb

  /** The pieces one after the other. */
  function Flat(parts: seq<seq<Byte>>): seq<Byte> {
    if parts == [] then [] else parts[0] + Flat(parts[1..])
  }

  lemma {:induction false} FlatJoins(a: seq<seq<Byte>>, b: seq<seq<Byte>>)
    ensures Flat(a + b) == Flat(a) + Flat(b)
  {
    if a == [] {
      assert a + b == b;
    } else {
      assert (a + b)[1..] == a[1..] + b;
      FlatJoins(a[1..], b);
      Assoc(a[0], Flat(a[1..]), Flat(b));
    }
  }

  /** The pieces that a list of fields is written as. */
  function Parts(o: Out): seq<seq<Byte>> {
    match o
    case Done => []
    case Scalar(num, v, next) => [[8 * num], Varint(v)] + Parts(next)
    case Bytes(num, data, next) => [[8 * num + 2], Varint(|data|), data] + Parts(next)
  }

  lemma {:induction false} EmitIsFlat(o: Out)
    ensures Emit(o) == Flat(Parts(o))
    decreases o
  {
    match o
    case Done =>
    case Scalar(num, v, next) =>
      EmitIsFlat(next);
      FlatJoins([[8 * num], Varint(v)], Parts(next));
      FlatTwo([8 * num], Varint(v));
    case Bytes(num, data, next) =>
      EmitIsFlat(next);
      FlatJoins([[8 * num + 2], Varint(|data|), data], Parts(next));
      FlatThree([8 * num + 2], Varint(|data|), data);
  }

  lemma FlatTwo(a: seq<Byte>, b: seq<Byte>)
    ensures Flat([a, b]) == a + b
  {
    assert [a, b][1..] == [b] && [b][1..] == [];
    assert Flat([b]) == b;
  }

  lemma FlatThree(a: seq<Byte>, b: seq<Byte>, c: seq<Byte>)
    ensures Flat([a, b, c]) == a + (b + c)
  {
    assert [a, b, c][1..] == [b, c];
    FlatTwo(b, c);
  }

  lemma EmitThenRest(o: Out, rest: seq<Byte>)
    ensures Emit(o) + rest == Flat(Parts(o) + [rest])
  {
    EmitIsFlat(o);
    FlatJoins(Parts(o), [rest]);
    assert [rest][1..] == [] && Flat([rest]) == rest;
  }

  lemma ScalarParts(num: FieldNum, v: Word, next: Out)
    ensures Parts(Scalar(num, v, next)) == [[8 * num], Varint(v)] + Parts(next)
  {
  }

  /** Three numbers in a row. */
  lemma ThreeScalars(a: FieldNum, u: Word, b: FieldNum, v: Word, c: FieldNum, w: Word, next: Out)
    ensures Parts(Scalar(a, u, Scalar(b, v, Scalar(c, w, next)))) ==
      [[8 * a], Varint(u), [8 * b], Varint(v), [8 * c], Varint(w)] + Parts(next)
  {
    ScalarParts(a, u, Scalar(b, v, Scalar(c, w, next)));
    ScalarParts(b, v, Scalar(c, w, next));
    ScalarParts(c, w, next);
  }

  /** A length-delimited field that is left out when nil. */
  function Opt(tag: Byte, data: Option<seq<Byte>>): seq<seq<Byte>> {
    match data case None => [] case Some(bs) => [[tag], Varint(|bs|), bs]
  }

  /** A repeated number, and a repeated entry. */
  function Each(tag: Byte, ws: seq<Word>): seq<seq<Byte>> {
    if ws == [] then [] else [[tag], Varint(ws[0])] + Each(tag, ws[1..])
  }

  function EachEntry(tag: Byte, es: seq<Entry>): seq<seq<Byte>> {
    if es == [] then [] else [[tag], Varint(|EncodeEntry(es[0])|), EncodeEntry(es[0])] + EachEntry(tag, es[1..])
  }

  lemma OptParts(num: FieldNum, data: Option<seq<Byte>>, next: Out)
    ensures Parts(OptBytes(num, data, next)) == Opt(8 * num + 2, data) + Parts(next)
  {
    if data.None? { assert [] + Parts(next) == Parts(next); }
  }

  lemma {:induction false} WordsParts(num: FieldNum, ws: seq<Word>, next: Out)
    ensures Parts(WordsOut(num, ws, next)) == Each(8 * num, ws) + Parts(next)
    decreases |ws|
  {
    if ws == [] {
      assert [] + Parts(next) == Parts(next);
    } else {
      WordsParts(num, ws[1..], next);
      Assoc([[8 * num], Varint(ws[0])], Each(8 * num, ws[1..]), Parts(next));
    }
  }

  lemma {:induction false} EntriesParts(es: seq<Entry>, next: Out)
    ensures Parts(EntriesOut(es, next)) == EachEntry(0x3A, es) + Parts(next)
    decreases |es|
  {
    hide EncodeEntry;
    if es == [] {
      assert [] + Parts(next) == Parts(next);
    } else {
      EntriesParts(es[1..], next);
      var bs := EncodeEntry(es[0]);
      Assoc([[0x3A], Varint(|bs|), bs], EachEntry(0x3A, es[1..]), Parts(next));
    }
  }

  // ------------------------------------------------------------ the messages

  lemma EntryBytes(e: Entry)
    ensures EncodeEntry(e) == Flat(
      [[0x08], Varint(FromInt32(e.typ)), [0x10], Varint(e.term), [0x18], Varint(e.index)]
      + Opt(0x22, e.data) + [e.unrecognized])
  {
    hide Flat, Varint, Opt, Emit;
    EmitThenRest(EntryOut(e), e.unrecognized);
    OptParts(4, e.data, Done);
    ThreeScalars(1, FromInt32(e.typ), 2, e.term, 3, e.index, OptBytes(4, e.data, Done));
    assert Opt(0x22, e.data) + [] == Opt(0x22, e.data);
  }

  lemma HardStateBytes(h: HardState)
    ensures EncodeHardState(h) == Flat(
      [[0x08], Varint(h.term), [0x10], Varint(h.vote), [0x18], Varint(h.commit), h.unrecognized])
  {
    hide Flat, Varint, Emit;
    EmitThenRest(HardStateOut(h), h.unrecognized);
    ThreeScalars(1, h.term, 2, h.vote, 3, h.commit, Done);
    assert Parts(HardStateOut(h)) + [h.unrecognized] ==
      [[0x08], Varint(h.term), [0x10], Varint(h.vote), [0x18], Varint(h.commit), h.unrecognized];
  }

  lemma ConfChangeBytes(c: ConfChange)
    ensures EncodeConfChange(c) == Flat(
      [[0x08], Varint(c.id), [0x10], Varint(FromInt32(c.typ)), [0x18], Varint(c.nodeID)]
      + Opt(0x22, c.context) + [c.unrecognized])
  {
    hide Flat, Varint, Opt, Emit;
    EmitThenRest(ConfChangeOut(c), c.unrecognized);
    OptParts(4, c.context, Done);
    ThreeScalars(1, c.id, 2, FromInt32(c.typ), 3, c.nodeID, OptBytes(4, c.context, Done));
    assert Opt(0x22, c.context) + [] == Opt(0x22, c.context);
  }

  lemma ConfStateBytes(c: ConfState)
    ensures EncodeConfState(c) == Flat(
      Each(0x08, c.voters) + (Each(0x10, c.learners) + (Each(0x18, c.votersOutgoing) + (Each(0x20, c.learnersNext)
      + [[0x28], [if c.autoLeave then 1 else 0]]))) + [c.unrecognized])
  {
    hide Flat, Each, Emit;
    EmitThenRest(ConfStateOut(c), c.unrecognized);
    var last := Scalar(5, Bit(c.autoLeave), Done);
    assert Parts(last) == [[0x28], [if c.autoLeave then 1 else 0]];
    hide Parts, WordsOut;
    var next := WordsOut(4, c.learnersNext, last);
    var out := WordsOut(3, c.votersOutgoing, next);
    WordsParts(4, c.learnersNext, last);
    WordsParts(3, c.votersOutgoing, next);
    WordsParts(2, c.learners, out);
    WordsParts(1, c.voters, WordsOut(2, c.learners, out));
  }

  lemma MetadataBytes(m: SnapshotMetadata)
    ensures var conf := EncodeConfState(m.confState);
      EncodeMetadata(m) == Flat(
        [[0x0A], Varint(|conf|), conf, [0x10], Varint(m.index), [0x18], Varint(m.term), m.unrecognized])
  {
    hide Flat, Varint, Emit, EncodeConfState;
    EmitThenRest(MetadataOut(m), m.unrecognized);
    var conf, last := EncodeConfState(m.confState), Scalar(3, m.term, Done);
    ScalarParts(2, m.index, last);
    ScalarParts(3, m.term, Done);
    assert Parts(MetadataOut(m)) == [[0x0A], Varint(|conf|), conf] + Parts(Scalar(2, m.index, last));
    assert Parts(MetadataOut(m)) + [m.unrecognized] ==
      [[0x0A], Varint(|conf|), conf, [0x10], Varint(m.index), [0x18], Varint(m.term), m.unrecognized];
  }

  lemma SnapshotBytes(s: Snapshot)
    ensures var md := EncodeMetadata(s.metadata);
      EncodeSnapshot(s) == Flat(Opt(0x0A, s.data) + [[0x12], Varint(|md|), md] + [s.unrecognized])
  {
    hide Flat, Varint, Opt, Emit, EncodeMetadata;
    EmitThenRest(SnapshotOut(s), s.unrecognized);
    var md := EncodeMetadata(s.metadata);
    OptParts(1, s.data, Bytes(2, md, Done));
    assert Parts(Bytes(2, md, Done)) == [[0x12], Varint(|md|), md];
  }

  lemma MessageTailParts(m: Message)
    ensures var snap := EncodeSnapshot(m.snapshot);
      Parts(MessageTail(m)) ==
        [[0x40], Varint(m.commit), [0x4A], Varint(|snap|), snap, [0x50], [if m.reject then 1 else 0],
         [0x58], Varint(m.rejectHint)] + Opt(0x62, m.context)
  {
    hide EncodeSnapshot, Opt;
    assert Varint(Bit(m.reject)) == [if m.reject then 1 else 0];
    hide Varint;
    var snap, ctx := EncodeSnapshot(m.snapshot), OptBytes(12, m.context, Done);
    var hint := Scalar(11, m.rejectHint, ctx);
    var rej := Scalar(10, Bit(m.reject), hint);
    OptParts(12, m.context, Done);
    assert Opt(0x62, m.context) + [] == Opt(0x62, m.context);
    ScalarParts(11, m.rejectHint, ctx);
    ScalarParts(10, Bit(m.reject), hint);
    assert Parts(Bytes(9, snap, rej)) == [[0x4A], Varint(|snap|), snap] + Parts(rej);
    ScalarParts(8, m.commit, Bytes(9, snap, rej));
  }

  lemma MessageBytes(m: Message)
    ensures var snap := EncodeSnapshot(m.snapshot);
      EncodeMessage(m) == Flat(
        [[0x08], Varint(FromInt32(m.typ)), [0x10], Varint(m.to), [0x18], Varint(m.from), [0x20], Varint(m.term),
         [0x28], Varint(m.logTerm), [0x30], Varint(m.index)]
        + (EachEntry(0x3A, m.entries)
        + ([[0x40], Varint(m.commit), [0x4A], Varint(|snap|), snap, [0x50], [if m.reject then 1 else 0],
            [0x58], Varint(m.rejectHint)]
        + Opt(0x62, m.context)))
        + [m.unrecognized])
  {
    hide Flat, Varint, Opt, Emit, EncodeSnapshot, EachEntry, MessageTail, EntriesOut;
    EmitThenRest(MessageOut(m), m.unrecognized);
    var rest := EntriesOut(m.entries, MessageTail(m));
    EntriesParts(m.entries, MessageTail(m));
    MessageTailParts(m);
    var three := Scalar(4, m.term, Scalar(5, m.logTerm, Scalar(6, m.index, rest)));
    ThreeScalars(4, m.term, 5, m.logTerm, 6, m.index, rest);
    ThreeScalars(1, FromInt32(m.typ), 2, m.to, 3, m.from, three);
    var a := [[0x08], Varint(FromInt32(m.typ)), [0x10], Varint(m.to), [0x18], Varint(m.from)];
    var b := [[0x20], Varint(m.term), [0x28], Varint(m.logTerm), [0x30], Varint(m.index)];
    assert MessageOut(m) == Scalar(1, FromInt32(m.typ), Scalar(2, m.to, Scalar(3, m.from, three)));
    Assoc(a, b, Parts(rest));
    assert a + b ==
      [[0x08], Varint(FromInt32(m.typ)), [0x10], Varint(m.to), [0x18], Varint(m.from), [0x20], Varint(m.term),
       [0x28], Varint(m.logTerm), [0x30], Varint(m.index)];
  }
}
