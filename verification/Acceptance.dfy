/** Which bytes the decoders accept: exactly the concatenations of wire fields that
    are unknown to the message type or of the wire type that it expects, with
    payloads of nested messages that are accepted in turn. And what they make of
    encodings (cluegetter.pb.go, lines 238-2877; Protocol Buffers Encoding, section
    "Message Structure"). */
module Acceptance {
  import opened Wire
  import opened Schema
  import opened Skipping
  import opened CodecLaws
  import opened Wrapping

  /** The type of the message that a field holds. */
  function SubKind(k: Kind, num: int): Option<Kind> {
    match k
    case KMessage => if num == 1 then Some(KSession) else if num == 5 then Some(KHeader)
                     else if num == 13 then Some(KCheck) else None
    case KLearn => if num == 2 then Some(KMessage) else None
    case KRpc => if num == 1024 then Some(KLearn) else if num == 1025 then Some(KLearnId) else None
    case _ => None
  }

  function Depth(k: Kind): nat {
    match k case KRpc => 3 case KLearn => 2 case KMessage => 1 case _ => 0
  }

  ghost predicate Fields(fs: seq<WireField>, d: Bytes) {
    WellFormedAll(fs) && RawAll(fs) == d
  }

  ghost predicate FieldAccepted(k: Kind, f: WireField)
    decreases Depth(k), 0
  {
    && WellFormed(f) && NumberOf(f) > 0
    && (Expected(k, NumberOf(f)).Some? ==>
          && Expected(k, NumberOf(f)) == Some(WireTypeOf(f))
          && (SubKind(k, NumberOf(f)).Some? ==> Accepted(SubKind(k, NumberOf(f)).value, f.payload)))
  }

  ghost predicate Accepted(k: Kind, d: Bytes)
    decreases Depth(k), 1
  {
    exists fs: seq<WireField> :: Fields(fs, d) && forall i :: 0 <= i < |fs| ==> FieldAccepted(k, fs[i])
  }

  lemma SubKindIs(m: Msg, num: int)
    ensures SubKind(KindOf(m), num) == match Sub(m, num) case None => None case Some(s) => Some(KindOf(s))
    ensures SubKind(KindOf(m), num).Some? ==>
              Expected(KindOf(m), num) == Some(2) && Depth(SubKind(KindOf(m), num).value) < Depth(KindOf(m))
  {
  }

  // ----- What is accepted decodes -----

  /** The decoded form of a known field. */
  function FieldOf(f: WireField): Field
    requires WellFormed(f) && NumberOf(f) > 0 && WireTypeOf(f) <= 2
  {
    match f
    case VarintField(_, payload) => VarintF(NumberOf(f), VarintValue(payload))
    case Fixed64Field(_, payload) => Fixed64F(NumberOf(f), FromLittleEndian(payload))
    case LengthField(_, _, payload) => BytesF(NumberOf(f), payload)
  }

  lemma PayloadIs(f: WireField)
    requires WellFormed(f) && NumberOf(f) > 0 && WireTypeOf(f) <= 2
    ensures ReadPayload(NumberOf(f), WireTypeOf(f), Body(f)) == Ok((FieldOf(f), |Body(f)|))
  {
    match f
    case VarintField(_, payload) =>
      ReadFront(payload, []);
      assert payload + [] == payload;
    case Fixed64Field(_, payload) => assert payload[..8] == payload;
    case LengthField(_, length, payload) =>
      ReadFront(length, payload);
      assert (length + payload)[|length|..|length| + |payload|] == payload;
  }

  lemma FieldOfIs(k: Kind, f: WireField)
    requires WellFormed(f) && NumberOf(f) > 0 && Expected(k, NumberOf(f)) == Some(WireTypeOf(f)) && WireTypeOf(f) <= 2
    ensures Knows(k, FieldOf(f))
  {
  }

  lemma KnownItem(k: Kind, f: WireField)
    requires WellFormed(f) && NumberOf(f) > 0 && Expected(k, NumberOf(f)) == Some(WireTypeOf(f)) && WireTypeOf(f) <= 2
    ensures ReadItem(k, Raw(f)) == Ok((Some(FieldOf(f)), |Raw(f)|)) && Knows(k, FieldOf(f))
  {
    hide ReadVarint, ReadPayload, Skip, VarintValue, WellFormed, Expected;
    SkipConsumesField(f, []);
    assert Raw(f) + [] == Raw(f) && Raw(f)[|f.tag|..] == Body(f);
    PayloadIs(f);
    FieldOfIs(k, f);
    hide Raw, Body, FieldOf;
  }

  lemma ExpectedUpTo2(k: Kind, num: int)
    ensures Expected(k, num).Some? ==> Expected(k, num).value <= 2
  {
  }

  lemma ScalarApplies(m: Msg, f: Field)
    requires Knows(KindOf(m), f) && Sub(m, f.num).None?
    ensures Apply(m, f).Ok?
  {
  }

  lemma OneItemDecodes(m: Msg, d: Bytes, f: Field)
    requires d != [] && ReadItem(KindOf(m), d) == Ok((Some(f), |d|)) && Apply(m, f).Ok?
    ensures Decode(m, d).Ok?
  {
    hide ReadItem, Apply;
    assert d[|d|..] == [];
  }

  lemma {:induction false} FieldDecodes(m: Msg, f: WireField)
    requires FieldAccepted(KindOf(m), f)
    ensures Decode(m, Raw(f)).Ok?
    decreases Depth(KindOf(m)), 0, 0
  {
    var k, num := KindOf(m), NumberOf(f);
    if Expected(k, num).None? {
      UnknownFieldAlone(m, f);
    } else {
      ExpectedUpTo2(k, num);
      KnownItem(k, f);
      SubKindIs(m, num);
      if Sub(m, num).Some? {
        var s := Sub(m, num).value;
        var fs :| Fields(fs, f.payload) && forall i :: 0 <= i < |fs| ==> FieldAccepted(KindOf(s), fs[i]);
        FieldsDecode(s, fs);
        ApplyIs(m, FieldOf(f));
      } else {
        ScalarApplies(m, FieldOf(f));
      }
      OneItemDecodes(m, Raw(f), FieldOf(f));
    }
  }

  lemma {:induction false} FieldsDecode(m: Msg, fs: seq<WireField>)
    requires WellFormedAll(fs) && forall i :: 0 <= i < |fs| ==> FieldAccepted(KindOf(m), fs[i])
    ensures Decode(m, RawAll(fs)).Ok?
    decreases Depth(KindOf(m)), 1, |fs|
  {
    if fs != [] {
      FieldDecodes(m, fs[0]);
      DecodeConcat(m, Raw(fs[0]), RawAll(fs[1..]));
      FieldsDecode(Decode(m, Raw(fs[0])).value, fs[1..]);
    }
  }

  // ----- What decodes is accepted -----

  lemma UnknownItemIsField(k: Kind, d: Bytes) returns (w: WireField)
    requires ReadItem(k, d).Ok? && ReadItem(k, d).value.0.None?
    ensures WellFormed(w) && Raw(w) == d[..ReadItem(k, d).value.1] && NumberOf(w) > 0
    ensures Expected(k, NumberOf(w)).None?
  {
    hide ReadVarint, Skip, Expected, WellFormed, ReadPayload;
    w := SkippedIsField(d);
    SkipConsumesField(w, d[|Raw(w)|..]);
    assert Raw(w) + d[|Raw(w)|..] == d;
  }

  lemma PayloadIsField(tag: Bytes, d: Bytes) returns (w: WireField)
    requires IsVarint(tag) && VarintValue(tag) % 8 <= 2 && ToInt32(VarintValue(tag) / 8) > 0
    requires ReadPayload(ToInt32(VarintValue(tag) / 8), VarintValue(tag) % 8, d).Ok?
    ensures WellFormed(w) && w.tag == tag && WireTypeOf(w) == VarintValue(tag) % 8
    ensures var r := ReadPayload(NumberOf(w), WireTypeOf(w), d).value;
            Body(w) == d[..r.1] && r.0 == FieldOf(w)
  {
    var wire := VarintValue(tag) % 8;
    if wire == 1 {
      w := Fixed64Field(tag, d[..8]);
    } else {
      FrontIsVarint(d);
      var (x, n) := ReadVarint(d).value;
      if wire == 0 {
        w := VarintField(tag, d[..n]);
      } else {
        w := LengthField(tag, d[..n], d[n..n + x]);
        assert d[..n + x] == d[..n] + d[n..n + x];
      }
    }
  }

  lemma KnownItemIsField(k: Kind, d: Bytes) returns (w: WireField)
    requires ReadItem(k, d).Ok? && ReadItem(k, d).value.0.Some?
    ensures WellFormed(w) && Raw(w) == d[..ReadItem(k, d).value.1] && NumberOf(w) > 0
    ensures WireTypeOf(w) <= 2 && Expected(k, NumberOf(w)) == Some(WireTypeOf(w))
    ensures ReadItem(k, d).value.0 == Some(FieldOf(w))
  {
    hide ReadVarint, Skip, Expected, WellFormed, ReadPayload, VarintValue;
    var (wire, t) := ReadVarint(d).value;
    FrontIsVarint(d);
    ExpectedUpTo2(k, ToInt32(wire / 8));
    w := PayloadIsField(d[..t], d[t..]);
    var n := ReadItem(k, d).value.1;
    assert d[t..][..n - t] == d[t..n] && d[..n] == d[..t] + d[t..n];
  }

  /** The wire field at the front of the bytes of an item. */
  lemma ItemIsField(k: Kind, d: Bytes) returns (w: WireField)
    requires ReadItem(k, d).Ok?
    ensures WellFormed(w) && Raw(w) == d[..ReadItem(k, d).value.1] && NumberOf(w) > 0
    ensures match ReadItem(k, d).value.0
            case None => Expected(k, NumberOf(w)).None?
            case Some(f) => Expected(k, NumberOf(w)) == Some(WireTypeOf(w)) && WireTypeOf(w) <= 2 && f == FieldOf(w)
  {
    if ReadItem(k, d).value.0.None? {
      w := UnknownItemIsField(k, d);
    } else {
      w := KnownItemIsField(k, d);
    }
  }

  lemma OneMoreField(w: WireField, rest: seq<WireField>, d: Bytes, n: nat)
    requires n <= |d| && WellFormed(w) && Raw(w) == d[..n] && Fields(rest, d[n..])
    ensures Fields([w] + rest, d)
  {
    hide WellFormed, Raw;
    assert ([w] + rest)[1..] == rest;
  }

  lemma {:induction false} DecodedIsAccepted(m: Msg, d: Bytes) returns (fs: seq<WireField>)
    requires Decode(m, d).Ok?
    ensures Fields(fs, d) && forall i :: 0 <= i < |fs| ==> FieldAccepted(KindOf(m), fs[i])
    decreases |d|, 1
  {
    if d == [] {
      fs := [];
    } else {
      var (f, n) := ReadItem(KindOf(m), d).value;
      var next := if f.Some? then Apply(m, f.value) else Ok(m);
      var w := ItemAccepted(m, d);
      var rest := DecodedIsAccepted(next.value, d[n..]);
      fs := [w] + rest;
      OneMoreField(w, rest, d, n);
    }
  }

  /** The first item of what decodes. */
  lemma {:induction false} ItemAccepted(m: Msg, d: Bytes) returns (w: WireField)
    requires d != [] && Decode(m, d).Ok?
    ensures FieldAccepted(KindOf(m), w) && Raw(w) == d[..ReadItem(KindOf(m), d).value.1]
    decreases |d|, 0
  {
    var f := ReadItem(KindOf(m), d).value.0;
    assert f.Some? ==> Apply(m, f.value).Ok?;
    hide Decode, ReadItem, Apply, WellFormed, Expected, Raw;
    w := ItemIsField(KindOf(m), d);
    SubKindIs(m, NumberOf(w));
    if f.Some? && Sub(m, f.value.num).Some? {
      ApplyIs(m, f.value);
      var nested := DecodedIsAccepted(Sub(m, f.value.num).value, f.value.s);
      assert Accepted(SubKind(KindOf(m), NumberOf(w)).value, w.payload);
    }
  }

  /** Decoding succeeds, whatever it decodes into, if and only if the bytes are
      accepted for the type. */
  lemma DecodesIff(m: Msg, d: Bytes)
    ensures Decode(m, d).Ok? <==> Accepted(KindOf(m), d)
  {
    hide Decode, FieldAccepted;
    if Decode(m, d).Ok? {
      var fs := DecodedIsAccepted(m, d);
    }
    if Accepted(KindOf(m), d) {
      var fs :| Fields(fs, d) && forall i :: 0 <= i < |fs| ==> FieldAccepted(KindOf(m), fs[i]);
      FieldsDecode(m, fs);
    }
  }

  /** And so does the source, on any slice of bytes that it can hold. */
  lemma SourceDecodesIff(m: Msg, d: Bytes)
    requires |d| < MAX_LENGTH
    ensures DecodeWrapped(m, d, 0).Ok? <==> Accepted(KindOf(m), d)
  {
    hide *;
    DecodesAlike(m, d);
    DecodesIff(m, d);
  }

  // ----- The laws of encoding for the source -----

  /** Decoding the encoding of y into x merges them. */
  lemma SourceMerges(x: Msg, y: Msg)
    requires KindOf(x) == KindOf(y) && |Encode(y)| < MAX_LENGTH
    ensures DecodeWrapped(x, Encode(y), 0) == Ok(Merge(x, y))
  {
    assert |Encode(y)| < TWO_63;
    hide *;
    DecodeMerges(x, y);
    DecodesAlike(x, Encode(y));
  }

  /** What was encoded is decoded from its slice as itself, up to the sign of zeros. */
  lemma SourceRoundTrip(m: Msg)
    requires |Encode(m)| < MAX_LENGTH
    ensures DecodeWrapped(Fresh(KindOf(m)), Encode(m), 0) == Ok(Normalize(m))
  {
    assert |Encode(m)| < TWO_63;
    hide *;
    RoundTrip(m);
    DecodesAlike(Fresh(KindOf(m)), Encode(m));
  }
}
