/**
 The protobuf wire format as the generated code reads and writes it: base-128 varints,
 tags, the skipping of fields a message does not know, and the field loop that every
 generated Unmarshal consists of.
 */
module Wire {
  import opened Prelude

  type Byte = b: int | 0 <= b < 256

  datatype Error =
    | IntOverflow | UnexpectedEOF | InvalidLength
    | EndGroup | IllegalTag | WrongWireType | IllegalWireType

  // ---------------------------------------------------------------- varints

  /** What encodeVarintRaft writes for v. */
  function Varint(v: nat): (r: seq<Byte>)
    ensures r != []
  {
    if v < 128 then [v] else [v % 128 + 128] + Varint(v / 128)
  }

  /** sovRaft: how many bytes a varint takes. */
  function Sov(v: nat): nat {
    if v / 128 == 0 then 1 else 1 + Sov(v / 128)
  }

  lemma {:induction false} VarintLength(v: nat)
    ensures |Varint(v)| == Sov(v)
  {
    if v >= 128 { VarintLength(v / 128); }
  }

  datatype Scan = Scan(v: nat, n: nat)

  /**
   The read loop shared by every varint in the generated code, k bytes into the number.
   The shift of byte k is 7k, so the eleventh byte is the one that overflows.
   The value is the unbounded sum of the 7-bit groups; readers take it modulo their width.
   */
  function ScanVarint(bs: seq<Byte>, k: nat): (r: Result<Scan, Error>)
    ensures r.Ok? ==> 1 <= r.value.n <= |bs|
  {
    if k >= 10 then Err(IntOverflow)
    else if bs == [] then Err(UnexpectedEOF)
    else if bs[0] < 128 then Ok(Scan(bs[0], 1))
    else match ScanVarint(bs[1..], k + 1)
      case Err(e) => Err(e)
      case Ok(s) => Ok(Scan(bs[0] - 128 + 128 * s.v, s.n + 1))
  }

  function ReadVarint(bs: seq<Byte>): (r: Result<Scan, Error>)
    ensures r.Ok? ==> 1 <= r.value.n <= |bs| && r.value.v < U64
  {
    match ScanVarint(bs, 0)
    case Err(e) => Err(e)
    case Ok(s) => Ok(Scan(s.v % U64, s.n))
  }

  /** The shape of a varint, whether or not it is the shortest one for its value. */
  predicate VarintShape(bs: seq<Byte>) {
    && 1 <= |bs| <= 10
    && bs[|bs| - 1] < 128
    && forall i :: 0 <= i < |bs| - 1 ==> bs[i] >= 128
  }

  function GroupSum(bs: seq<Byte>): nat {
    if bs == [] then 0 else bs[0] % 128 + 128 * GroupSum(bs[1..])
  }

  /** The uint64 a varint stands for. */
  function VarintValue(bs: seq<Byte>): Word {
    GroupSum(bs) % U64
  }

  lemma {:induction false} ScanShape(bs: seq<Byte>, rest: seq<Byte>, k: nat)
    requires bs != [] && |bs| + k <= 10 && bs[|bs| - 1] < 128
    requires forall i :: 0 <= i < |bs| - 1 ==> bs[i] >= 128
    ensures ScanVarint(bs + rest, k) == Ok(Scan(GroupSum(bs), |bs|))
  {
    if |bs| > 1 {
      ScanShape(bs[1..], rest, k + 1);
      assert (bs + rest)[1..] == bs[1..] + rest;
    } else {
      assert GroupSum(bs) == bs[0] + 128 * GroupSum([]);
    }
  }

  /** A varint is read back whole, whatever follows it. */
  lemma ReadShape(bs: seq<Byte>, rest: seq<Byte>)
    requires VarintShape(bs)
    ensures ReadVarint(bs + rest) == Ok(Scan(VarintValue(bs), |bs|))
  {
    ScanShape(bs, rest, 0);
  }

  /** Conversely, whatever the read loop accepts has the shape of a varint. */
  lemma {:induction false} ScanAccepts(bs: seq<Byte>, k: nat)
    requires ScanVarint(bs, k).Ok?
    ensures var s := ScanVarint(bs, k).value;
      && s.n + k <= 10
      && bs[s.n - 1] < 128
      && (forall i :: 0 <= i < s.n - 1 ==> bs[i] >= 128)
      && s.v == GroupSum(bs[..s.n])
  {
    if bs[0] >= 128 {
      ScanAccepts(bs[1..], k + 1);
      var s := ScanVarint(bs[1..], k + 1).value;
      assert bs[..s.n + 1][1..] == bs[1..][..s.n];
      assert forall i :: 0 < i < s.n ==> bs[i] == bs[1..][i - 1];
    } else {
      assert bs[..1] == [bs[0]];
      assert GroupSum([bs[0]]) == bs[0] % 128 + 128 * GroupSum([]);
    }
  }

  /** The length of the run of continuation bytes at the front. */
  function MoreBytes(bs: seq<Byte>): nat {
    if bs == [] || bs[0] < 128 then 0 else 1 + MoreBytes(bs[1..])
  }

  lemma {:induction false} ScanFails(bs: seq<Byte>, k: nat)
    requires k <= 10
    ensures var n := MoreBytes(bs);
      && (ScanVarint(bs, k) == Err(IntOverflow) <==> n + k >= 10)
      && (ScanVarint(bs, k) == Err(UnexpectedEOF) <==> n + k < 10 && n == |bs|)
      && (ScanVarint(bs, k).Ok? <==> n + k < 10 && n < |bs|)
  {
    if k < 10 && bs != [] && bs[0] >= 128 { ScanFails(bs[1..], k + 1); }
  }

  /** Which error a number that is not accepted gives: ten bytes that all go on, or bytes that just end. */
  lemma ReadFails(bs: seq<Byte>)
    ensures ReadVarint(bs) == Err(IntOverflow) <==> MoreBytes(bs) >= 10
    ensures ReadVarint(bs) == Err(UnexpectedEOF) <==> MoreBytes(bs) < 10 && MoreBytes(bs) == |bs|
    ensures ReadVarint(bs).Ok? <==> MoreBytes(bs) < 10 && MoreBytes(bs) < |bs|
  {
    ScanFails(bs, 0);
  }

  lemma ReadAccepts(bs: seq<Byte>)
    requires ReadVarint(bs).Ok?
    ensures var s := ReadVarint(bs).value;
      VarintShape(bs[..s.n]) && VarintValue(bs[..s.n]) == s.v
  {
    ScanAccepts(bs, 0);
  }

  function Pow128(n: nat): nat {
    if n == 0 then 1 else 128 * Pow128(n - 1)
  }

  lemma {:induction false} VarintHasShape(v: nat, n: nat)
    requires v < Pow128(n)
    ensures var bs := Varint(v);
      && |bs| <= Max(n, 1)
      && bs[|bs| - 1] < 128
      && (forall i :: 0 <= i < |bs| - 1 ==> bs[i] >= 128)
      && GroupSum(bs) == v
  {
    if v >= 128 {
      VarintHasShape(v / 128, n - 1);
      assert Varint(v)[1..] == Varint(v / 128);
    } else {
      assert GroupSum([v]) == v % 128 + 128 * GroupSum([]);
    }
  }

  lemma TenGroupsHoldAWord()
    ensures U64 <= Pow128(10)
  {
    assert Pow128(2) == 0x4000;
    assert Pow128(4) == 0x1000_0000;
    assert Pow128(6) == 0x400_0000_0000;
    assert Pow128(8) == 0x100_0000_0000_0000;
    assert Pow128(10) == 0x40_0000_0000_0000_0000;
  }

  /** Round trip of the varint printer and reader, in front of any bytes. */
  lemma VarintRoundTrip(v: Word, rest: seq<Byte>)
    ensures VarintShape(Varint(v)) && VarintValue(Varint(v)) == v
    ensures ReadVarint(Varint(v) + rest) == Ok(Scan(v, Sov(v)))
  {
    hide ReadVarint, GroupSum, Pow128;
    TenGroupsHoldAWord();
    VarintHasShape(v, 10);
    ReadShape(Varint(v), rest);
    VarintLength(v);
  }

  // ------------------------------------------------- skipping unknown fields

  /** skipRaft: the length of the field that starts at the front of bs (possibly past its end). */
  function Skip(bs: seq<Byte>): (r: Result<nat, Error>)
    ensures r.Ok? ==> r.value >= 1
    decreases |bs|, 0
  {
    match ReadVarint(bs)
    case Err(e) => Err(e)
    case Ok(tag) =>
      match SkipPayload(tag.v % 8, bs[tag.n..]) case Err(e) => Err(e) case Ok(k) => Ok(tag.n + k)
  }

  /** What follows the tag, by wire type. */
  function SkipPayload(wireType: nat, bs: seq<Byte>): (r: Result<nat, Error>)
    decreases |bs|, 2
  {
    match wireType
    case 0 => (match ReadVarint(bs) case Err(e) => Err(e) case Ok(s) => Ok(s.n))
    case 1 => Ok(8)
    case 2 =>
      (match ReadVarint(bs)
       case Err(e) => Err(e)
       case Ok(s) => if s.v >= U63 then Err(InvalidLength) else Ok(s.n + s.v))
    case 3 => SkipGroup(bs)
    case 4 => Ok(0)
    case 5 => Ok(4)
    case _ => Err(IllegalWireType)
  }

  /** The inner loop of skipRaft: fields up to and including an end-group tag. */
  function SkipGroup(bs: seq<Byte>): (r: Result<nat, Error>)
    ensures r.Ok? ==> 1 <= r.value <= |bs|
    decreases |bs|, 1
  {
    match ReadVarint(bs)
    case Err(e) => Err(e)
    case Ok(tag) =>
      if tag.v % 8 == 4 then Ok(tag.n)
      else match Skip(bs)
        case Err(e) => Err(e)
        case Ok(k) =>
          if k > |bs| then Err(UnexpectedEOF)
          else match SkipGroup(bs[k..]) case Err(e) => Err(e) case Ok(m) => Ok(k + m)
  }

  /** What skipRaft refuses, by wire type. */
  lemma SkipRejects(bs: seq<Byte>)
    requires ReadVarint(bs).Ok?
    ensures var tag := ReadVarint(bs).value; var rest := bs[tag.n..];
      && (tag.v % 8 > 5 ==> Skip(bs) == Err(IllegalWireType))
      && (tag.v % 8 in {0, 2} && ReadVarint(rest).Err? ==> Skip(bs) == Err(ReadVarint(rest).error))
      && (tag.v % 8 == 2 && ReadVarint(rest).Ok? && ReadVarint(rest).value.v >= U63 ==> Skip(bs) == Err(InvalidLength))
  {
    hide ReadVarint, SkipGroup;
  }

  /** A group that ends inside one of its fields, or before its end-group tag. */
  lemma SkipGroupRejects(bs: seq<Byte>)
    ensures ReadVarint(bs).Err? ==> SkipGroup(bs) == Err(ReadVarint(bs).error)
    ensures ReadVarint(bs).Ok? && ReadVarint(bs).value.v % 8 != 4 && Skip(bs).Ok? && Skip(bs).value > |bs| ==>
      SkipGroup(bs) == Err(UnexpectedEOF)
    ensures ReadVarint(bs).Ok? && ReadVarint(bs).value.v % 8 != 4 && Skip(bs).Err? ==>
      SkipGroup(bs) == Err(Skip(bs).error)
  {
    hide ReadVarint, SkipPayload;
  }

  /** The grammar of fields, independent of any parser. Tags and lengths need not be minimal. */
  datatype Field =
    | FVarint(tag: seq<Byte>, v: seq<Byte>)
    | FFixed64(tag: seq<Byte>, data: seq<Byte>)
    | FBytes(tag: seq<Byte>, len: seq<Byte>, data: seq<Byte>)
    | FGroup(tag: seq<Byte>, body: Fields, end: seq<Byte>)
    | FFixed32(tag: seq<Byte>, data: seq<Byte>)

  datatype Fields = FNil | FCons(head: Field, tail: Fields)

  ghost predicate WfField(f: Field) {
    && VarintShape(f.tag)
    && match f
       case FVarint(tag, v) => VarintValue(tag) % 8 == 0 && VarintShape(v)
       case FFixed64(tag, data) => VarintValue(tag) % 8 == 1 && |data| == 8
       case FBytes(tag, len, data) =>
         VarintValue(tag) % 8 == 2 && VarintShape(len) && VarintValue(len) == |data| < U63
       case FGroup(tag, body, end) =>
         VarintValue(tag) % 8 == 3 && WfFields(body) && VarintShape(end) && VarintValue(end) % 8 == 4
       case FFixed32(tag, data) => VarintValue(tag) % 8 == 5 && |data| == 4
  }

  ghost predicate WfFields(fs: Fields) {
    fs.FNil? || (WfField(fs.head) && WfFields(fs.tail))
  }

  function Ser(f: Field): seq<Byte>
    decreases f, 1
  {
    f.tag + Payload(f)
  }

  function Payload(f: Field): seq<Byte>
    decreases f, 0
  {
    match f
    case FVarint(_, v) => v
    case FFixed64(_, data) => data
    case FBytes(_, len, data) => len + data
    case FGroup(_, body, end) => SerAll(body) + end
    case FFixed32(_, data) => data
  }

  function SerAll(fs: Fields): seq<Byte> {
    match fs
    case FNil => []
    case FCons(f, tail) => Ser(f) + SerAll(tail)
  }

  lemma {:induction false} SkipStepsOverPayload(f: Field, rest: seq<Byte>)
    requires WfField(f)
    ensures SkipPayload(VarintValue(f.tag) % 8, Payload(f) + rest) == Ok(|Payload(f)|)
    decreases f, 0
  {
    hide ReadVarint, SkipGroup;
    match f
    case FVarint(_, v) =>
      ReadShape(v, rest);
    case FBytes(_, len, data) =>
      assert Payload(f) + rest == len + (data + rest);
      ReadShape(len, data + rest);
    case FGroup(_, body, end) =>
      assert Payload(f) + rest == SerAll(body) + (end + rest);
      SkipStepsOverGroup(body, end, rest);
    case _ =>
  }

  lemma SkipTagThenPayload(tag: seq<Byte>, body: seq<Byte>, k: nat)
    requires VarintShape(tag) && SkipPayload(VarintValue(tag) % 8, body) == Ok(k)
    ensures ReadVarint(tag + body) == Ok(Scan(VarintValue(tag), |tag|))
    ensures Skip(tag + body) == Ok(|tag| + k)
  {
    ReadShape(tag, body);
    TakeDrop(tag, body);
  }

  /** skipRaft steps over exactly one well-formed field, whatever follows it. */
  lemma {:induction false} SkipStepsOverField(f: Field, rest: seq<Byte>)
    requires WfField(f)
    ensures Skip(Ser(f) + rest) == Ok(|Ser(f)|)
    ensures ReadVarint(Ser(f) + rest) == Ok(Scan(VarintValue(f.tag), |f.tag|))
    decreases f, 1
  {
    hide Skip, SkipPayload, ReadVarint;
    SkipStepsOverPayload(f, rest);
    SkipTagThenPayload(f.tag, Payload(f) + rest, |Payload(f)|);
    Assoc(f.tag, Payload(f), rest);
  }

  lemma {:induction false} SkipStepsOverGroup(fs: Fields, end: seq<Byte>, rest: seq<Byte>)
    requires WfFields(fs) && VarintShape(end) && VarintValue(end) % 8 == 4
    ensures SkipGroup(SerAll(fs) + (end + rest)) == Ok(|SerAll(fs)| + |end|)
    decreases fs
  {
    hide Skip, Ser, ScanVarint;
    match fs
    case FNil =>
      assert SerAll(fs) + (end + rest) == end + rest;
      ReadShape(end, rest);
    case FCons(f, tail) =>
      var after := SerAll(tail) + (end + rest);
      assert SerAll(fs) + (end + rest) == Ser(f) + after;
      SkipStepsOverField(f, after);
      SkipStepsOverGroup(tail, end, rest);
      assert (Ser(f) + after)[|Ser(f)|..] == after;
  }

  lemma {:induction false} SkipPayloadAcceptsOnlyPayloads(tag: seq<Byte>, bs: seq<Byte>) returns (f: Field)
    requires VarintShape(tag) && VarintValue(tag) % 8 != 4
    requires var k := SkipPayload(VarintValue(tag) % 8, bs); k.Ok? && k.value <= |bs|
    ensures WfField(f) && f.tag == tag
    ensures Payload(f) == bs[..SkipPayload(VarintValue(tag) % 8, bs).value]
    decreases |bs|, 2
  {
    var wireType := VarintValue(tag) % 8;
    if wireType == 0 {
      ReadAccepts(bs);
      f := FVarint(tag, bs[..ReadVarint(bs).value.n]);
    } else if wireType == 1 {
      f := FFixed64(tag, bs[..8]);
    } else if wireType == 2 {
      ReadAccepts(bs);
      var s := ReadVarint(bs).value;
      f := FBytes(tag, bs[..s.n], bs[s.n..s.n + s.v]);
      assert bs[..s.n] + bs[s.n..s.n + s.v] == bs[..s.n + s.v];
    } else if wireType == 3 {
      var body, end := SkipGroupAcceptsOnlyFields(bs);
      f := FGroup(tag, body, end);
    } else {
      f := FFixed32(tag, bs[..4]);
    }
  }

  /** Conversely, skipRaft accepts nothing but well-formed fields: the field it stepped over. */
  lemma {:induction false} SkipAcceptsOnlyFields(bs: seq<Byte>) returns (f: Field)
    requires Skip(bs).Ok? && Skip(bs).value <= |bs| && ReadVarint(bs).value.v % 8 != 4
    ensures WfField(f) && Ser(f) == bs[..Skip(bs).value]
    decreases |bs|, 0
  {
    hide SkipPayload, WfField, Payload, ScanVarint;
    ReadAccepts(bs);
    var n, k := ReadVarint(bs).value.n, Skip(bs).value;
    f := SkipPayloadAcceptsOnlyPayloads(bs[..n], bs[n..]);
    assert bs[..k] == bs[..n] + bs[n..][..k - n];
    assert Ser(f) == f.tag + Payload(f);
  }

  lemma {:induction false} SkipGroupAcceptsOnlyFields(bs: seq<Byte>)
    returns (body: Fields, end: seq<Byte>)
    requires SkipGroup(bs).Ok?
    ensures WfFields(body) && VarintShape(end) && VarintValue(end) % 8 == 4
    ensures SerAll(body) + end == bs[..SkipGroup(bs).value]
    decreases |bs|, 1
  {
    ReadAccepts(bs);
    var tag := ReadVarint(bs).value;
    if tag.v % 8 == 4 {
      body, end := FNil, bs[..tag.n];
    } else {
      var k := Skip(bs).value;
      var head := SkipAcceptsOnlyFields(bs);
      var tail, e := SkipGroupAcceptsOnlyFields(bs[k..]);
      body, end := FCons(head, tail), e;
      TakeSplit(bs, k, SkipGroup(bs[k..]).value);
      Assoc(Ser(head), SerAll(tail), end);
    }
  }

  lemma FieldPrefixIsSkipped(f: Field, bs: seq<Byte>, n: nat)
    requires n <= |bs| && WfField(f) && Ser(f) == bs[..n]
    ensures Skip(bs) == Ok(n)
  {
    SkipStepsOverField(f, bs[n..]);
    assert Ser(f) + bs[n..] == bs;
  }

  ghost predicate StartsWithField(bs: seq<Byte>, n: nat)
    requires n <= |bs|
  {
    exists f :: WfField(f) && Ser(f) == bs[..n]
  }

  /** The whole language of skipRaft (section "Message Structure" of the encoding specification). */
  lemma SkipIsExactlyTheFieldGrammar(bs: seq<Byte>, n: nat)
    requires n <= |bs| && ReadVarint(bs).Ok? && ReadVarint(bs).value.v % 8 != 4
    ensures Skip(bs) == Ok(n) <==> StartsWithField(bs, n)
  {
    if Skip(bs) == Ok(n) {
      var f := SkipAcceptsOnlyFields(bs);
    }
    if StartsWithField(bs, n) {
      var f :| WfField(f) && Ser(f) == bs[..n];
      FieldPrefixIsSkipped(f, bs, n);
    }
  }

  // ----------------------------------------------------------- field loops

  /** int32(x) and uint64(t): enum values are sign-extended on the way out and truncated on the way in. */
  function ToInt32(x: nat): (t: Enum)
    ensures (t - x) % U32 == 0
  {
    if x % U32 < U31 then x % U32 else x % U32 - U32
  }

  function FromInt32(t: Enum): (x: Word)
    ensures ToInt32(x) == t && (x - t) % U64 == 0
  {
    if t < 0 then t + U64 else t
  }

  /** How a message type treats a field number. */
  datatype Kind = Unknown | Single | Repeated | Delimited

  datatype Value = Num(v: Word) | Nums(vs: seq<Word>) | Blob(data: seq<Byte>)

  /** The switch of a generated Unmarshal, and its handling of unrecognised bytes. */
  datatype Schema<!M> = Schema(
    kind: Enum -> Kind,
    put: (M, Enum, Value) -> Result<M, Error>,
    keep: (M, seq<Byte>) -> M)

  datatype Taken<T> = Taken(value: T, n: nat)

  function ReadLength(bs: seq<Byte>): (r: Result<Scan, Error>)
    ensures r.Ok? ==> r.value.n + r.value.v <= |bs|
  {
    match ReadVarint(bs)
    case Err(e) => Err(e)
    case Ok(s) =>
      if s.v >= U63 then Err(InvalidLength)
      else if s.n + s.v > |bs| then Err(UnexpectedEOF)
      else Ok(s)
  }

  /** A packed run of varints of the given total length; the last one may run past it. */
  function ReadPacked(bs: seq<Byte>, length: int): (r: Result<Taken<seq<Word>>, Error>)
    ensures r.Ok? ==> length <= r.value.n <= |bs|
    decreases |bs|
  {
    if length <= 0 then Ok(Taken([], 0))
    else match ReadVarint(bs)
      case Err(e) => Err(e)
      case Ok(s) =>
        match ReadPacked(bs[s.n..], length - s.n)
        case Err(e) => Err(e)
        case Ok(t) => Ok(Taken([s.v as Word] + t.value, s.n + t.n))
  }

  function ReadValue(kind: Kind, wireType: nat, bs: seq<Byte>): (r: Result<Taken<Value>, Error>)
    ensures r.Ok? ==> r.value.n <= |bs|
  {
    if kind != Delimited && wireType == 0 then
      match ReadVarint(bs) case Err(e) => Err(e) case Ok(s) => Ok(Taken(Num(s.v), s.n))
    else if kind == Delimited && wireType == 2 then
      match ReadLength(bs)
      case Err(e) => Err(e)
      case Ok(s) => Ok(Taken(Blob(bs[s.n..s.n + s.v]), s.n + s.v))
    else if kind == Repeated && wireType == 2 then
      match ReadLength(bs)
      case Err(e) => Err(e)
      case Ok(s) =>
        match ReadPacked(bs[s.n..], s.v)
        case Err(e) => Err(e)
        case Ok(t) => Ok(Taken(Nums(t.value), s.n + t.n))
    else Err(WrongWireType)
  }

  /** One turn of the field loop. */
  function DecodeField<M>(s: Schema<M>, m: M, bs: seq<Byte>): (r: Result<Taken<M>, Error>)
    ensures r.Ok? ==> 1 <= r.value.n <= |bs|
  {
    match ReadVarint(bs)
    case Err(e) => Err(e)
    case Ok(tag) =>
      var num := ToInt32(tag.v / 8);
      if tag.v % 8 == 4 then Err(EndGroup)
      else if num <= 0 then Err(IllegalTag)
      else if s.kind(num) == Unknown then
        (match Skip(bs)
         case Err(e) => Err(e)
         case Ok(k) => if k > |bs| then Err(UnexpectedEOF) else Ok(Taken(s.keep(m, bs[..k]), k)))
      else
        match ReadValue(s.kind(num), tag.v % 8, bs[tag.n..])
        case Err(e) => Err(e)
        case Ok(t) =>
          match s.put(m, num, t.value) case Err(e) => Err(e) case Ok(m') => Ok(Taken(m', tag.n + t.n))
  }

  /** Unmarshal into m. */
  function Decode<M>(s: Schema<M>, m: M, bs: seq<Byte>): Result<M, Error>
    decreases |bs|
  {
    if bs == [] then Ok(m)
    else match DecodeField(s, m, bs)
      case Err(e) => Err(e)
      case Ok(t) => Decode(s, t.value, bs[t.n..])
  }

  /** What the field loop refuses, by the first tag. */
  lemma DecodeRejects<M>(s: Schema<M>, m: M, bs: seq<Byte>)
    requires bs != [] && ReadVarint(bs).Ok?
    ensures var tag := ReadVarint(bs).value.v; var num, wire := ToInt32(tag / 8), tag % 8;
      && (wire == 4 ==> Decode(s, m, bs) == Err(EndGroup))
      && (wire != 4 && num <= 0 ==> Decode(s, m, bs) == Err(IllegalTag))
      && (wire != 4 && num > 0 && s.kind(num) == Single && wire != 0 ==> Decode(s, m, bs) == Err(WrongWireType))
      && (wire != 4 && num > 0 && s.kind(num) == Delimited && wire != 2 ==> Decode(s, m, bs) == Err(WrongWireType))
      && (wire != 4 && num > 0 && s.kind(num) == Repeated && wire != 0 && wire != 2 ==>
            Decode(s, m, bs) == Err(WrongWireType))
      && (wire != 4 && num > 0 && s.kind(num) == Unknown ==>
            match Skip(bs)
            case Err(e) => Decode(s, m, bs) == Err(e)
            case Ok(k) => k > |bs| ==> Decode(s, m, bs) == Err(UnexpectedEOF))
  {
    hide ReadVarint, Skip, ReadPacked;
  }

  /** A length-delimited value that does not fit: a length of 2^63 or more, or one that runs past the end. */
  lemma DelimitedRejects(bs: seq<Byte>)
    requires ReadVarint(bs).Ok?
    ensures var s := ReadVarint(bs).value;
      && (s.v >= U63 ==> ReadValue(Delimited, 2, bs) == Err(InvalidLength) == ReadValue(Repeated, 2, bs))
      && (s.v < U63 && s.n + s.v > |bs| ==>
            ReadValue(Delimited, 2, bs) == Err(UnexpectedEOF) == ReadValue(Repeated, 2, bs))
  {
    hide ReadVarint, ReadPacked;
  }

  type FieldNum = n: int | 1 <= n < 16 witness 1

  /** The fields a MarshalTo writes, in order. */
  datatype Out =
    | Done
    | Scalar(num: FieldNum, v: Word, next: Out)
    | Bytes(num: FieldNum, data: seq<Byte>, next: Out)

  function EmitScalar(num: FieldNum, v: Word): seq<Byte> {
    [8 * num] + Varint(v)
  }

  function EmitBytes(num: FieldNum, data: seq<Byte>): seq<Byte> {
    [8 * num + 2] + (Varint(|data|) + data)
  }

  function Emit(o: Out): seq<Byte> {
    match o
    case Done => []
    case Scalar(num, v, next) => EmitScalar(num, v) + Emit(next)
    case Bytes(num, data, next) => EmitBytes(num, data) + Emit(next)
  }

  /** What reading those fields one after the other does to a message. */
  function Load<M>(s: Schema<M>, m: M, o: Out): Result<M, Error> {
    match o
    case Done => Ok(m)
    case Scalar(num, v, next) =>
      if s.kind(num) == Single || s.kind(num) == Repeated then
        match s.put(m, num, Num(v)) case Err(e) => Err(e) case Ok(m') => Load(s, m', next)
      else Err(WrongWireType)
    case Bytes(num, data, next) =>
      if s.kind(num) == Delimited then
        match s.put(m, num, Blob(data)) case Err(e) => Err(e) case Ok(m') => Load(s, m', next)
      else Err(WrongWireType)
  }

  lemma LoadScalar<M>(s: Schema<M>, m: M, num: FieldNum, v: Word, next: Out, m': M)
    requires s.kind(num) == Single || s.kind(num) == Repeated
    requires s.put(m, num, Num(v)) == Ok(m')
    ensures Load(s, m, Scalar(num, v, next)) == Load(s, m', next)
  {
  }

  lemma LoadBytes<M>(s: Schema<M>, m: M, num: FieldNum, data: seq<Byte>, next: Out, m': M)
    requires s.kind(num) == Delimited && s.put(m, num, Blob(data)) == Ok(m')
    ensures Load(s, m, Bytes(num, data, next)) == Load(s, m', next)
  {
  }

  lemma LoadDone<M>(s: Schema<M>, m: M)
    ensures Load(s, m, Done) == Ok(m)
  {
  }

  lemma TagByte(t: Byte, rest: seq<Byte>)
    requires t < 128
    ensures ReadVarint([t] + rest) == Ok(Scan(t, 1))
  {
    VarintRoundTrip(t, rest);
    assert Varint(t) == [t];
  }

  lemma ReadScalar(kind: Kind, v: Word, rest: seq<Byte>)
    requires kind == Single || kind == Repeated
    ensures ReadValue(kind, 0, Varint(v) + rest) == Ok(Taken(Num(v), |Varint(v)|))
  {
    VarintRoundTrip(v, rest);
    VarintLength(v);
  }

  lemma ReadBytes(data: seq<Byte>, rest: seq<Byte>)
    requires |data| < U63
    ensures var body := Varint(|data|) + data;
      ReadValue(Delimited, 2, body + rest) == Ok(Taken(Blob(data), |body|))
  {
    var l := Varint(|data|);
    Assoc(l, data, rest);
    VarintRoundTrip(|data|, data + rest);
    VarintLength(|data|);
    TakeDrop(l, data + rest);
    TakeDrop(data, rest);
    assert (l + (data + rest))[|l|..|l| + |data|] == (data + rest)[..|data|];
  }

  lemma DecodeKnownField<M>(s: Schema<M>, m: M, num: FieldNum, wireType: nat, v: Value, bs: seq<Byte>, n: nat)
    requires wireType == 0 || wireType == 2
    requires s.kind(num) != Unknown && s.put(m, num, v).Ok?
    requires ReadValue(s.kind(num), wireType, bs) == Ok(Taken(v, n))
    ensures DecodeField(s, m, [8 * num + wireType] + bs) == Ok(Taken(s.put(m, num, v).value, 1 + n))
  {
    hide Skip, ScanVarint, ReadValue;
    var t: Byte := 8 * num + wireType;
    TagByte(t, bs);
    TakeDrop([t], bs);
    assert ToInt32(t / 8) == num && t % 8 == wireType;
  }

  /** A known field: one tag byte, then its value. */
  lemma DecodeKnown<M>(s: Schema<M>, m: M, num: FieldNum, wireType: nat, v: Value, body: seq<Byte>, rest: seq<Byte>)
    requires wireType == 0 || wireType == 2
    requires s.kind(num) != Unknown && s.put(m, num, v).Ok?
    requires ReadValue(s.kind(num), wireType, body + rest) == Ok(Taken(v, |body|))
    ensures Decode(s, m, ([8 * num + wireType] + body) + rest) == Decode(s, s.put(m, num, v).value, rest)
  {
    hide DecodeField, ReadVarint, Skip, ReadValue;
    var t: Byte := 8 * num + wireType;
    DecodeKnownField(s, m, num, wireType, v, body + rest, |body|);
    Assoc([t], body, rest);
    TakeDrop([t] + body, rest);
  }

  /** Decoding what was emitted loads exactly those fields, in front of any bytes. */
  lemma {:induction false} DecodeEmitted<M>(s: Schema<M>, m: M, o: Out, rest: seq<Byte>)
    requires |Emit(o)| < U63 && Load(s, m, o).Ok?
    ensures Decode(s, m, Emit(o) + rest) == Decode(s, Load(s, m, o).value, rest)
    decreases o
  {
    hide Decode, Varint, ReadValue;
    match o
    case Done => assert Emit(o) + rest == rest;
    case Scalar(num, v, next) =>
      assert Emit(o) + rest == EmitScalar(num, v) + (Emit(next) + rest);
      ReadScalar(s.kind(num), v, Emit(next) + rest);
      DecodeKnown(s, m, num, 0, Num(v), Varint(v), Emit(next) + rest);
      DecodeEmitted(s, s.put(m, num, Num(v)).value, next, rest);
    case Bytes(num, data, next) =>
      assert Emit(o) + rest == EmitBytes(num, data) + (Emit(next) + rest);
      ReadBytes(data, Emit(next) + rest);
      DecodeKnown(s, m, num, 2, Blob(data), Varint(|data|) + data, Emit(next) + rest);
      DecodeEmitted(s, s.put(m, num, Blob(data)).value, next, rest);
  }

  /** Every field of the run carries a number the message type does not know. */
  ghost predicate UnknownTo<M>(s: Schema<M>, fs: Fields) {
    match fs
    case FNil => true
    case FCons(f, tail) =>
      && ToInt32(VarintValue(f.tag) / 8) > 0
      && s.kind(ToInt32(VarintValue(f.tag) / 8)) == Unknown
      && UnknownTo(s, tail)
  }

  /** u is a well-formed run of fields unknown to the message type. */
  ghost predicate UnknownRun<M>(s: Schema<M>, u: seq<Byte>) {
    exists fs :: WfFields(fs) && UnknownTo(s, fs) && SerAll(fs) == u
  }

  /** Unrecognised bytes are kept in order of arrival. */
  ghost predicate Keeps<M(!new)>(s: Schema<M>) {
    && (forall m :: s.keep(m, []) == m)
    && (forall m, a, b :: s.keep(s.keep(m, a), b) == s.keep(m, a + b))
  }

  lemma {:induction false} DecodeUnknown<M(!new)>(s: Schema<M>, m: M, fs: Fields)
    requires Keeps(s) && WfFields(fs) && UnknownTo(s, fs)
    ensures Decode(s, m, SerAll(fs)) == Ok(s.keep(m, SerAll(fs)))
    decreases fs
  {
    hide Skip, ReadVarint, Ser;
    match fs
    case FNil =>
    case FCons(f, tail) =>
      var bs := SerAll(fs);
      SkipStepsOverField(f, SerAll(tail));
      assert bs[..|Ser(f)|] == Ser(f) && bs[|Ser(f)|..] == SerAll(tail);
      DecodeUnknown(s, s.keep(m, Ser(f)), tail);
  }

  /** The generic round trip: known fields are loaded, and an unknown run is kept verbatim. */
  lemma DecodeEmittedThenUnknown<M(!new)>(s: Schema<M>, m: M, o: Out, m': M, u: seq<Byte>)
    requires |Emit(o)| < U63 && Load(s, m, o) == Ok(m') && Keeps(s) && UnknownRun(s, u)
    ensures Decode(s, m, Emit(o) + u) == Ok(s.keep(m', u))
  {
    hide Decode, Emit, Load;
    var fs :| WfFields(fs) && UnknownTo(s, fs) && SerAll(fs) == u;
    DecodeEmitted(s, m, o, u);
    DecodeUnknown(s, m', fs);
  }
}
