/**
 The merge law of the wire format: unmarshalling two buffers one after the other is unmarshalling
 their concatenation, for every message type and whatever the bytes.
 */
module WireMerge {
  import opened Prelude
  import opened Wire

  lemma ReadVarintGoesOn(a: seq<Byte>, b: seq<Byte>)
    requires ReadVarint(a).Ok?
    ensures ReadVarint(a + b) == ReadVarint(a)
  {
    hide ReadVarint;
    ReadAccepts(a);
    var n := ReadVarint(a).value.n;
    ReadShape(a[..n], a[n..] + b);
    assert a[..n] + (a[n..] + b) == a + b;
  }

  lemma SkipGoesOn(a: seq<Byte>, b: seq<Byte>)
    requires Skip(a).Ok? && Skip(a).value <= |a| && ReadVarint(a).Ok? && ReadVarint(a).value.v % 8 != 4
    ensures Skip(a + b) == Skip(a)
  {
    hide Skip, ReadVarint;
    var f := SkipAcceptsOnlyFields(a);
    var k := Skip(a).value;
    assert (a + b)[..k] == a[..k];
    FieldPrefixIsSkipped(f, a + b, k);
  }

  lemma {:induction false} ReadPackedGoesOn(a: seq<Byte>, b: seq<Byte>, length: int)
    requires ReadPacked(a, length).Ok?
    ensures ReadPacked(a + b, length) == ReadPacked(a, length)
    decreases |a|
  {
    if length > 0 {
      hide ReadVarint;
      ReadVarintGoesOn(a, b);
      var n := ReadVarint(a).value.n;
      DropAppend(a, b, n);
      ReadPackedGoesOn(a[n..], b, length - n);
    }
  }

  lemma ReadLengthGoesOn(a: seq<Byte>, b: seq<Byte>)
    requires ReadLength(a).Ok?
    ensures ReadLength(a + b) == ReadLength(a)
  {
    hide ReadVarint;
    ReadVarintGoesOn(a, b);
  }

  lemma ReadValueGoesOn(kind: Kind, wireType: nat, a: seq<Byte>, b: seq<Byte>)
    requires ReadValue(kind, wireType, a).Ok?
    ensures ReadValue(kind, wireType, a + b) == ReadValue(kind, wireType, a)
  {
    hide ReadVarint, ReadLength, ReadPacked;
    if wireType == 0 {
      ReadVarintGoesOn(a, b);
    } else {
      ReadLengthGoesOn(a, b);
      var s := ReadLength(a).value;
      DropAppend(a, b, s.n);
      if kind == Delimited {
        assert (a + b)[s.n..s.n + s.v] == a[s.n..s.n + s.v];
      } else {
        ReadPackedGoesOn(a[s.n..], b, s.v);
      }
    }
  }

  lemma DecodeFieldGoesOn<M>(s: Schema<M>, m: M, a: seq<Byte>, b: seq<Byte>)
    requires DecodeField(s, m, a).Ok?
    ensures DecodeField(s, m, a + b) == DecodeField(s, m, a)
  {
    hide ReadVarint, ReadValue, Skip;
    ReadVarintGoesOn(a, b);
    var tag := ReadVarint(a).value;
    DropAppend(a, b, tag.n);
    if s.kind(ToInt32(tag.v / 8)) == Unknown {
      SkipGoesOn(a, b);
      DropAppend(a, b, Skip(a).value);
    } else {
      ReadValueGoesOn(s.kind(ToInt32(tag.v / 8)), tag.v % 8, a[tag.n..], b);
    }
  }

  /** Whatever a buffer is accepted as, the bytes behind it are read into that. */
  lemma {:induction false} DecodeMerges<M>(s: Schema<M>, m: M, a: seq<Byte>, b: seq<Byte>)
    requires Decode(s, m, a).Ok?
    ensures Decode(s, m, a + b) == Decode(s, Decode(s, m, a).value, b)
    decreases |a|
  {
    if a == [] {
      assert a + b == b;
    } else {
      hide DecodeField;
      DecodeFieldGoesOn(s, m, a, b);
      var t := DecodeField(s, m, a).value;
      DropAppend(a, b, t.n);
      DecodeMerges(s, t.value, a[t.n..], b);
    }
  }
}
