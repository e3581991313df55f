/**
 The imperative side of the generated code: varints written into a byte buffer at a moving index,
 varints accumulated byte by byte, skipRaft, the field loop of Unmarshal and Marshal.
 Each method is proved equal to its specification in Wire and RaftPb.
 */
module WireBuffer {
  import opened Prelude
  import opened Bits
  import opened Wire
  import opened RaftPb
  import opened RaftPbRoundTrip

  /** now is was with the bytes from offset on replaced by bs. */
  ghost predicate Wrote(was: seq<Byte>, now: seq<Byte>, offset: nat, bs: seq<Byte>) {
    offset + |bs| <= |was| && now == was[..offset] + bs + was[offset + |bs|..]
  }

  lemma WroteNothing(was: seq<Byte>, offset: nat)
    requires offset <= |was|
    ensures Wrote(was, was, offset, [])
  {
  }

  lemma WroteThen(was: seq<Byte>, mid: seq<Byte>, now: seq<Byte>, offset: nat, a: seq<Byte>, b: seq<Byte>)
    requires Wrote(was, mid, offset, a) && Wrote(mid, now, offset + |a|, b)
    ensures Wrote(was, now, offset, a + b)
  {
    assert mid[..offset + |a|] == was[..offset] + a;
    assert mid[offset + |a| + |b|..] == was[offset + |a| + |b|..];
    Assoc(was[..offset], a, b);
  }

  lemma WroteByte(was: seq<Byte>, now: seq<Byte>, i: nat, b: Byte)
    requires i < |was| && now == was[i := b]
    ensures Wrote(was, now, i, [b])
  {
  }

  method EncodeVarint(dAtA: array<Byte>, offset: nat, v: Word) returns (end: nat)
    requires offset + Sov(v) <= dAtA.Length
    modifies dAtA
    ensures end == offset + Sov(v) && Wrote(old(dAtA[..]), dAtA[..], offset, Varint(v))
  {
    VarintLength(v);
    ghost var was := dAtA[..];
    var x: nat := v;
    end := offset;
    ghost var done: seq<Byte> := [];
    WroteNothing(was, offset);
    hide Wrote, And, Or, Shr;
    while x >= 128
      invariant offset + |done| == end && end + Sov(x) == offset + Sov(v)
      invariant done + Varint(x) == Varint(v) && Wrote(was, dAtA[..], offset, done)
    {
      MoreFollows(x);
      var b: Byte := Or(And(x, 0x7F), 0x80);
      end := PutByte(dAtA, was, offset, done, end, b);
      Assoc(done, [b], Varint(x / 128));
      done := done + [b];
      x := Shr(x, 7);
    }
    end := PutByte(dAtA, was, offset, done, end, x);
  }

  method PutByte(dAtA: array<Byte>, ghost was: seq<Byte>, ghost offset: nat, ghost done: seq<Byte>, i: nat, b: Byte)
    returns (end: nat)
    requires i == offset + |done| < dAtA.Length && Wrote(was, dAtA[..], offset, done)
    modifies dAtA
    ensures end == i + 1 && Wrote(was, dAtA[..], offset, done + [b])
  {
    hide Wrote;
    ghost var mid := dAtA[..];
    dAtA[i] := b;
    WroteByte(mid, dAtA[..], i, b);
    WroteThen(was, mid, dAtA[..], offset, done, [b]);
    end := i + 1;
  }

  method SovRaft(v: Word) returns (n: nat)
    ensures n == Sov(v) && n == |Varint(v)|
  {
    VarintLength(v);
    var x: nat := v;
    n := 1;
    while x / 128 != 0
      invariant n + Sov(x) == Sov(v) + 1
    {
      x := x / 128;
      n := n + 1;
    }
  }

  method Copy(dAtA: array<Byte>, offset: nat, bs: seq<Byte>) returns (end: nat)
    requires offset + |bs| <= dAtA.Length
    modifies dAtA
    ensures end == offset + |bs| && Wrote(old(dAtA[..]), dAtA[..], offset, bs)
  {
    for i := 0 to |bs|
      invariant dAtA[..offset] == old(dAtA[..offset])
      invariant dAtA[offset..offset + i] == bs[..i]
      invariant dAtA[offset + i..] == old(dAtA[offset + i..])
    {
      dAtA[offset + i] := bs[i];
    }
    end := offset + |bs|;
    assert dAtA[..] == dAtA[..offset] + dAtA[offset..end] + dAtA[end..];
  }

  /** MarshalTo: tag bytes, varints and copies, one field after the other, then the unrecognised bytes. */
  method MarshalTo(dAtA: array<Byte>, o: Out, unrecognized: seq<Byte>) returns (n: nat)
    requires |Emit(o)| + |unrecognized| <= dAtA.Length && |Emit(o)| < U63
    modifies dAtA
    ensures n == |Emit(o)| + |unrecognized|
    ensures Wrote(old(dAtA[..]), dAtA[..], 0, Emit(o) + unrecognized)
  {
    hide Wrote, Emit, HeadOf, Emitted;
    ghost var was := dAtA[..];
    var rest := o;
    n := 0;
    ghost var done: seq<Byte> := [];
    WroteNothing(was, 0);
    EmittedNone(o);
    while !rest.Done?
      invariant |done| == n && Emitted(o, rest, done)
      invariant Wrote(was, dAtA[..], 0, done)
      decreases rest
    {
      ghost var mid := dAtA[..];
      EmittedOne(o, rest, done);
      n := WriteField(dAtA, n, rest);
      WroteThen(was, mid, dAtA[..], 0, done, HeadOf(rest));
      done := done + HeadOf(rest);
      rest := rest.next;
    }
    EmittedAll(o, done);
    ghost var mid := dAtA[..];
    n := Copy(dAtA, n, unrecognized);
    WroteThen(was, mid, dAtA[..], 0, done, unrecognized);
  }

  /** The fields before rest have been written as done. */
  ghost predicate Emitted(o: Out, rest: Out, done: seq<Byte>) {
    done + Emit(rest) == Emit(o)
  }

  lemma EmittedNone(o: Out)
    ensures Emitted(o, o, [])
  {
    assert [] + Emit(o) == Emit(o);
  }

  lemma EmittedOne(o: Out, rest: Out, done: seq<Byte>)
    requires !rest.Done? && Emitted(o, rest, done)
    ensures Emitted(o, rest.next, done + HeadOf(rest)) && |done| + |HeadOf(rest)| <= |Emit(o)|
  {
    hide HeadOf;
    EmitHead(rest);
    Assoc(done, HeadOf(rest), Emit(rest.next));
  }

  lemma EmittedAll(o: Out, done: seq<Byte>)
    requires Emitted(o, Done, done)
    ensures done == Emit(o)
  {
    assert done + [] == done;
  }

  ghost function HeadOf(o: Out): seq<Byte>
    requires !o.Done?
  {
    if o.Scalar? then EmitScalar(o.num, o.v) else EmitBytes(o.num, o.data)
  }

  lemma EmitHead(o: Out)
    requires !o.Done?
    ensures Emit(o) == HeadOf(o) + Emit(o.next)
  {
  }

  method WriteField(dAtA: array<Byte>, i: nat, o: Out) returns (end: nat)
    requires !o.Done? && i + |HeadOf(o)| <= dAtA.Length && |HeadOf(o)| < U63
    modifies dAtA
    ensures end == i + |HeadOf(o)| && Wrote(old(dAtA[..]), dAtA[..], i, HeadOf(o))
  {
    hide Varint, Wrote;
    if o.Scalar? {
      end := WriteScalar(dAtA, i, o.num, o.v);
    } else {
      end := WriteBytes(dAtA, i, o.num, o.data);
    }
  }

  method WriteScalar(dAtA: array<Byte>, i: nat, num: FieldNum, v: Word) returns (end: nat)
    requires i + |EmitScalar(num, v)| <= dAtA.Length
    modifies dAtA
    ensures end == i + |EmitScalar(num, v)| && Wrote(old(dAtA[..]), dAtA[..], i, EmitScalar(num, v))
  {
    hide Varint, Sov;
    ghost var was := dAtA[..];
    var tag: Byte := 8 * num;
    VarintLength(v);
    dAtA[i] := tag;
    ghost var mid := dAtA[..];
    end := EncodeVarint(dAtA, i + 1, v);
    WroteThen(was, mid, dAtA[..], i, [tag], Varint(v));
  }

  method WriteBytes(dAtA: array<Byte>, i: nat, num: FieldNum, data: seq<Byte>) returns (end: nat)
    requires |data| < U63 && i + |EmitBytes(num, data)| <= dAtA.Length
    modifies dAtA
    ensures end == i + |EmitBytes(num, data)| && Wrote(old(dAtA[..]), dAtA[..], i, EmitBytes(num, data))
  {
    hide Varint, Sov;
    ghost var was := dAtA[..];
    var tag: Byte, l := 8 * num + 2, |data|;
    VarintLength(l);
    dAtA[i] := tag;
    ghost var mid := dAtA[..];
    assert Wrote(was, mid, i, [tag]);
    end := EncodeVarint(dAtA, i + 1, l);
    ghost var mid2 := dAtA[..];
    end := Copy(dAtA, end, data);
    ghost var now := dAtA[..];
    assert Wrote(was, now, i, EmitBytes(num, data)) by {
      hide Wrote;
      WroteThen(mid, mid2, now, i + 1, Varint(l), data);
      WroteThen(was, mid, now, i, [tag], Varint(l) + data);
    }
  }

  /** Entry.Marshal: a buffer of exactly Size() bytes, filled completely. */
  method MarshalEntry(e: Entry) returns (dAtA: array<Byte>)
    requires EntrySize(e) < U63
    ensures fresh(dAtA) && dAtA.Length == EntrySize(e) && dAtA[..] == EncodeEntry(e)
  {
    EntrySizeExact(e);
    dAtA := new Byte[EntrySize(e)];
    var n := MarshalTo(dAtA, EntryOut(e), e.unrecognized);
  }

  method MarshalMessage(m: Message) returns (dAtA: array<Byte>)
    requires MessageSize(m) < U63
    ensures fresh(dAtA) && dAtA.Length == MessageSize(m) && dAtA[..] == EncodeMessage(m)
  {
    hide MessageOut, MessageSize, Emit;
    MessageSizeExact(m);
    dAtA := new Byte[MessageSize(m)];
    var n := MarshalTo(dAtA, MessageOut(m), m.unrecognized);
  }

  method MarshalConfChange(c: ConfChange) returns (dAtA: array<Byte>)
    requires ConfChangeSize(c) < U63
    ensures fresh(dAtA) && dAtA.Length == ConfChangeSize(c) && dAtA[..] == EncodeConfChange(c)
  {
    ConfChangeSizeExact(c);
    dAtA := new Byte[ConfChangeSize(c)];
    var n := MarshalTo(dAtA, ConfChangeOut(c), c.unrecognized);
  }

  // ---------------------------------------------------------------- reading

  lemma ModShift(a: nat, k: nat)
    ensures (a + U64 * k) % U64 == a % U64
  {
  }

  lemma ShiftedSum(acc: nat, unit: nat, b: Byte, v: nat)
    requires b >= 128
    ensures (Accumulate(acc, unit, b) + (unit * 128) * v) % U64 == (acc + unit * (b - 128 + 128 * v)) % U64
  {
    var x, y := acc + unit * (b - 128), (unit * 128) * v;
    assert b % 128 == b - 128;
    assert unit * (b - 128 + 128 * v) == unit * (b - 128) + y;
    ModShift(x % U64 + y, x / U64);
    assert x == U64 * (x / U64) + x % U64;
  }

  /** What acc | (b & 0x7F) << shift comes to, with unit = 1 << shift. */
  function Accumulate(acc: nat, unit: nat, b: Byte): Word {
    (acc + unit * (b % 128)) % U64
  }

  /** The rest of a varint after k of its bytes, in terms of the whole. */
  ghost predicate VarintFrom(rest: Result<Scan, Error>, k: nat, acc: nat, unit: nat, whole: Result<Scan, Error>) {
    match rest
    case Err(e) => whole == Err(e)
    case Ok(s) => whole.Ok? && whole.value.n == k + s.n && whole.value.v % U64 == (acc + unit * s.v) % U64
  }

  lemma VarintStep(bs: seq<Byte>, k: nat, acc: nat, unit: nat, whole: Result<Scan, Error>)
    requires VarintFrom(ScanVarint(bs, k), k, acc, unit, whole)
    ensures k >= 10 ==> whole == Err(IntOverflow)
    ensures k < 10 && bs == [] ==> whole == Err(UnexpectedEOF)
    ensures k < 10 && bs != [] && bs[0] < 128 ==>
      whole.Ok? && whole.value.n == k + 1 && whole.value.v % U64 == Accumulate(acc, unit, bs[0])
    ensures k < 10 && bs != [] && bs[0] >= 128 ==>
      VarintFrom(ScanVarint(bs[1..], k + 1), k + 1, Accumulate(acc, unit, bs[0]), unit * 128, whole)
  {
    if k < 10 && bs != [] {
      if bs[0] >= 128 {
        hide Accumulate;
        var tail := ScanVarint(bs[1..], k + 1);
        if tail.Ok? { ShiftedSum(acc, unit, bs[0], tail.value.v); }
      } else {
        assert bs[0] % 128 == bs[0];
      }
    }
  }

  /** `for shift := uint(0); ; shift += 7`, with a uint64 that is shifted into. */
  method ReadVarintAt(dAtA: seq<Byte>, iNdEx: nat) returns (r: Result<Scan, Error>)
    ensures r == if iNdEx <= |dAtA| then ReadVarint(dAtA[iNdEx..]) else Err(UnexpectedEOF)
  {
    if iNdEx > |dAtA| { return Err(UnexpectedEOF); }
    var k: nat, wire: Word := 0, 0;
    ghost var whole := ScanVarint(dAtA[iNdEx..], 0);
    assert Pow2(0) == 1 && VarintFrom(ScanVarint(dAtA[iNdEx..], 0), 0, 0, 1, whole);
    hide ScanVarint, VarintFrom, Accumulate, Pow2, And, Or, Shl;
    while true
      invariant k <= 10 && iNdEx + k <= |dAtA| && wire < Pow2(7 * k)
      invariant VarintFrom(ScanVarint(dAtA[iNdEx + k..], k), k, wire, Pow2(7 * k), whole)
      decreases 10 - k
    {
      var i := iNdEx + k;
      VarintStep(dAtA[i..], k, wire, Pow2(7 * k), whole);
      if 7 * k >= 64 { return Err(IntOverflow); }
      if i >= |dAtA| { return Err(UnexpectedEOF); }
      var b := dAtA[i];
      assert dAtA[i..][1..] == dAtA[i + 1..];
      ShiftedIn(wire, k, b);
      wire := Or(wire, Shl(And(b, 0x7F), 7 * k));
      if b < 128 { return Ok(Scan(wire, k + 1)); }
      k := k + 1;
    }
  }

  lemma ShiftedIn(wire: Word, k: nat, b: Byte)
    requires k <= 9 && wire < Pow2(7 * k)
    ensures And(b, 0x7F) < 128
    ensures Or(wire, Shl(And(b, 0x7F), 7 * k)) == Accumulate(wire, Pow2(7 * k), b) < Pow2(7 * (k + 1))
    ensures Pow2(7 * (k + 1)) == Pow2(7 * k) * 128
  {
    hide And, Or, Shl, Pow2;
    GroupIsAdded(wire, k, b);
    Pow2By7(7 * k);
  }

  /** On no bytes at all the loop is not entered and the code panics. */
  method SkipRaft(dAtA: seq<Byte>) returns (r: Result<nat, Error>)
    requires dAtA != []
    ensures r == Skip(dAtA)
    decreases |dAtA|, 0
  {
    var tag := ReadVarintAt(dAtA, 0);
    assert dAtA[0..] == dAtA;
    if tag.Err? { return Err(tag.error); }
    var n := tag.value.n;
    match tag.value.v % 8
    case 0 =>
      var v := ReadVarintAt(dAtA, n);
      r := if v.Err? then Err(v.error) else Ok(n + v.value.n);
    case 1 => r := Ok(n + 8);
    case 2 =>
      var v := ReadVarintAt(dAtA, n);
      r := if v.Err? then Err(v.error)
           else if v.value.v >= U63 then Err(InvalidLength)
           else Ok(n + v.value.n + v.value.v);
    case 3 =>
      var k := SkipRaftGroup(dAtA[n..]);
      r := if k.Err? then Err(k.error) else Ok(n + k.value);
    case 4 => r := Ok(n);
    case 5 => r := Ok(n + 4);
    case _ => r := Err(IllegalWireType);
  }

  /** What is left of a group after i bytes of it, in terms of the whole. */
  ghost predicate GroupFrom(dAtA: seq<Byte>, i: nat, whole: Result<nat, Error>) {
    if i > |dAtA| then whole == Err(UnexpectedEOF)
    else match SkipGroup(dAtA[i..]) case Err(e) => whole == Err(e) case Ok(m) => whole == Ok(i + m)
  }

  lemma GroupStep(dAtA: seq<Byte>, i: nat, whole: Result<nat, Error>)
    requires i < |dAtA| && GroupFrom(dAtA, i, whole)
    requires ReadVarint(dAtA[i..]).Ok? && ReadVarint(dAtA[i..]).value.v % 8 != 4
    ensures match Skip(dAtA[i..])
            case Err(e) => whole == Err(e)
            case Ok(k) => GroupFrom(dAtA, i + k, whole)
  {
    hide Skip, ReadVarint;
    var k := Skip(dAtA[i..]);
    if k.Ok? && i + k.value <= |dAtA| { assert dAtA[i..][k.value..] == dAtA[i + k.value..]; }
  }

  method SkipRaftGroup(dAtA: seq<Byte>) returns (r: Result<nat, Error>)
    ensures r == SkipGroup(dAtA)
    decreases |dAtA|, 1
  {
    hide Skip;
    var iNdEx := 0;
    ghost var whole := SkipGroup(dAtA);
    assert dAtA[0..] == dAtA;
    while true
      invariant GroupFrom(dAtA, iNdEx, whole)
      decreases |dAtA| - iNdEx
    {
      var start := iNdEx;
      var inner := ReadVarintAt(dAtA, iNdEx);
      if inner.Err? { return Err(inner.error); }
      if inner.value.v % 8 == 4 { return Ok(start + inner.value.n); }
      GroupStep(dAtA, start, whole);
      var next := SkipRaft(dAtA[start..]);
      if next.Err? { return Err(next.error); }
      iNdEx := start + next.value;
    }
  }

  /** The generated Unmarshal loop. */
  method Unmarshal<M>(s: Schema<M>, m0: M, dAtA: seq<Byte>) returns (r: Result<M, Error>)
    ensures r == Decode(s, m0, dAtA)
  {
    hide Skip, ReadVarint, ReadValue;
    var m, iNdEx := m0, 0;
    assert dAtA[0..] == dAtA;
    while iNdEx < |dAtA|
      invariant iNdEx <= |dAtA| && Decode(s, m0, dAtA) == Decode(s, m, dAtA[iNdEx..])
    {
      ghost var bs := dAtA[iNdEx..];
      var t := UnmarshalField(s, m, dAtA, iNdEx);
      if t.Err? { return Err(t.error); }
      assert bs[t.value.n..] == dAtA[iNdEx + t.value.n..];
      m, iNdEx := t.value.value, iNdEx + t.value.n;
    }
    r := Ok(m);
  }

  method UnmarshalField<M>(s: Schema<M>, m: M, dAtA: seq<Byte>, preIndex: nat)
    returns (r: Result<Taken<M>, Error>)
    requires preIndex < |dAtA|
    ensures r == DecodeField(s, m, dAtA[preIndex..])
  {
    hide Skip, ReadVarint, ReadValue;
    var tag := ReadVarintAt(dAtA, preIndex);
    if tag.Err? { return Err(tag.error); }
    var num, wireType := ToInt32(tag.value.v / 8), tag.value.v % 8;
    if wireType == 4 { return Err(EndGroup); }
    if num <= 0 { return Err(IllegalTag); }
    if s.kind(num) == Unknown {
      var skippy := SkipRaft(dAtA[preIndex..]);
      if skippy.Err? { return Err(skippy.error); }
      if preIndex + skippy.value > |dAtA| { return Err(UnexpectedEOF); }
      return Ok(Taken(s.keep(m, dAtA[preIndex..][..skippy.value]), skippy.value));
    }
    var v := UnmarshalValue(s.kind(num), wireType, dAtA, preIndex + tag.value.n);
    assert dAtA[preIndex..][tag.value.n..] == dAtA[preIndex + tag.value.n..];
    if v.Err? { return Err(v.error); }
    var m' := s.put(m, num, v.value.value);
    r := if m'.Err? then Err(m'.error) else Ok(Taken(m'.value, tag.value.n + v.value.n));
  }

  method UnmarshalValue(kind: Kind, wireType: nat, dAtA: seq<Byte>, iNdEx: nat)
    returns (r: Result<Taken<Value>, Error>)
    requires iNdEx <= |dAtA|
    ensures r == ReadValue(kind, wireType, dAtA[iNdEx..])
  {
    hide ReadVarint;
    if kind != Delimited && wireType == 0 {
      var v := ReadVarintAt(dAtA, iNdEx);
      return if v.Err? then Err(v.error) else Ok(Taken(Num(v.value.v), v.value.n));
    }
    if !(wireType == 2 && (kind == Delimited || kind == Repeated)) { return Err(WrongWireType); }
    var len := ReadVarintAt(dAtA, iNdEx);
    if len.Err? { return Err(len.error); }
    if len.value.v >= U63 { return Err(InvalidLength); }
    var n := len.value.n;
    var postIndex := iNdEx + n + len.value.v;
    if postIndex > |dAtA| { return Err(UnexpectedEOF); }
    assert dAtA[iNdEx..][n..] == dAtA[iNdEx + n..];
    if kind == Delimited {
      assert dAtA[iNdEx..][n..n + len.value.v] == dAtA[iNdEx + n..postIndex];
      return Ok(Taken(Blob(dAtA[iNdEx + n..postIndex]), n + len.value.v));
    }
    var vs := UnmarshalPacked(dAtA, iNdEx + n, postIndex);
    r := if vs.Err? then Err(vs.error) else Ok(Taken(Nums(vs.value.value), n + vs.value.n));
  }

  method UnmarshalPacked(dAtA: seq<Byte>, from: nat, postIndex: nat)
    returns (r: Result<Taken<seq<Word>>, Error>)
    requires from <= postIndex <= |dAtA|
    ensures r == ReadPacked(dAtA[from..], postIndex - from)
  {
    hide ReadVarint;
    var iNdEx, vs: seq<Word> := from, [];
    ghost var whole := ReadPacked(dAtA[from..], postIndex - from);
    assert whole.Ok? ==> [] + whole.value.value == whole.value.value;
    while iNdEx < postIndex
      invariant from <= iNdEx <= |dAtA|
      invariant match ReadPacked(dAtA[iNdEx..], postIndex - iNdEx)
                case Err(e) => whole == Err(e)
                case Ok(t) => whole == Ok(Taken(vs + t.value, iNdEx - from + t.n))
    {
      var v := ReadVarintAt(dAtA, iNdEx);
      if v.Err? { return Err(v.error); }
      ghost var rest := ReadPacked(dAtA[iNdEx + v.value.n..], postIndex - iNdEx - v.value.n);
      assert dAtA[iNdEx..][v.value.n..] == dAtA[iNdEx + v.value.n..];
      if rest.Ok? { Assoc(vs, [v.value.v as Word], rest.value.value); }
      vs := vs + [v.value.v];
      iNdEx := iNdEx + v.value.n;
    }
    assert vs + [] == vs;
    r := Ok(Taken(vs, iNdEx - from));
  }
}
