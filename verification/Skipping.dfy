/** What the skipper of unknown fields consumes, against a grammar of wire
    fields that is written without it (cluegetter.pb.go, lines 2779-2877;
    Protocol Buffers Encoding, sections "Message Structure" and "Groups"). The
    standard ends a group with the tag of its own number; the source, and so the
    grammar here, accepts the end tag of any. */
module Skipping {
  import opened Wire

  /** One field of any wire type; a group holds any number of fields. */
  datatype WireField =
    | VarintField(tag: Bytes, payload: Bytes)
    | Fixed64Field(tag: Bytes, payload: Bytes)
    | LengthField(tag: Bytes, length: Bytes, payload: Bytes)
    | GroupField(tag: Bytes, fields: seq<WireField>, end: Bytes)
    | Fixed32Field(tag: Bytes, payload: Bytes)

  /** The value of the varint that `s` is. */
  function VarintValue(s: Bytes): (v: uint64)
    requires IsVarint(s)
  {
    ReadVarintIff(s, |s|);
    assert s[..|s|] == s;
    ReadVarint(s).value.0
  }

  predicate HasWireType(tag: Bytes, w: nat) {
    IsVarint(tag) && VarintValue(tag) % 8 == w
  }

  predicate WellFormed(f: WireField)
    decreases f
  {
    match f
    case VarintField(tag, payload) => HasWireType(tag, 0) && IsVarint(payload)
    case Fixed64Field(tag, payload) => HasWireType(tag, 1) && |payload| == 8
    case LengthField(tag, length, payload) =>
      HasWireType(tag, 2) && IsVarint(length) && VarintValue(length) == |payload| < TWO_63
    case GroupField(tag, fields, end) =>
      HasWireType(tag, 3) && WellFormedAll(fields) && HasWireType(end, 4)
    case Fixed32Field(tag, payload) => HasWireType(tag, 5) && |payload| == 4
  }

  predicate WellFormedAll(fs: seq<WireField>)
    decreases fs
  {
    fs == [] || (WellFormed(fs[0]) && WellFormedAll(fs[1..]))
  }

  function Raw(f: WireField): Bytes
    decreases f, 1
  {
    f.tag + Body(f)
  }

  function Body(f: WireField): Bytes
    decreases f, 0
  {
    match f
    case VarintField(_, payload) => payload
    case Fixed64Field(_, payload) => payload
    case LengthField(_, length, payload) => length + payload
    case GroupField(_, fields, end) => RawAll(fields) + end
    case Fixed32Field(_, payload) => payload
  }

  function RawAll(fs: seq<WireField>): Bytes
    decreases fs
  {
    if fs == [] then [] else Raw(fs[0]) + RawAll(fs[1..])
  }

  /** A varint at the front of a buffer is read whole, with its own value. */
  lemma ReadFront(s: Bytes, rest: Bytes)
    requires IsVarint(s)
    ensures ReadVarint(s + rest) == Ok((VarintValue(s), |s|))
    ensures (s + rest)[|s|..] == rest
  {
    ReadVarintIff(s, |s|);
    assert s[..|s|] == s;
    VarintLocal(s, rest);
  }

  lemma {:induction false} SkipVarintAgrees(d: Bytes, k: nat, acc: nat)
    requires k <= 10 && acc < Pow128(k) && acc < TWO_64
    ensures SkipVarint(d, k).Ok? == ReadFrom(d, k, acc).Ok?
    ensures SkipVarint(d, k).Ok? ==> SkipVarint(d, k).value == ReadFrom(d, k, acc).value.1
    decreases |d|
  {
    if k < 10 && d != [] && d[0] >= 128 {
      ShiftedBound(d[0], k, acc);
      SkipVarintAgrees(d[1..], k + 1, acc + Shifted(d[0], k));
    }
  }

  function WireTypeOf(f: WireField): nat {
    match f
    case VarintField(_, _) => 0
    case Fixed64Field(_, _) => 1
    case LengthField(_, _, _) => 2
    case GroupField(_, _, _) => 3
    case Fixed32Field(_, _) => 5
  }

  lemma SkipGroupStep(d: Bytes, n: nat, m: nat)
    requires ReadVarint(d).Ok? && ReadVarint(d).value.0 % 8 != 4
    requires Skip(d) == Ok(n) && n <= |d| && SkipGroup(d[n..]) == Ok(m)
    ensures SkipGroup(d) == Ok(n + m)
  {
  }

  /** Every well-formed field, with groups nested to any depth, is consumed
      exactly, whatever follows it. */
  lemma {:induction false} SkipConsumesField(f: WireField, rest: Bytes)
    requires WellFormed(f)
    ensures Skip(Raw(f) + rest) == Ok(|Raw(f)|)
    ensures ReadVarint(Raw(f) + rest) == Ok((VarintValue(f.tag), |f.tag|))
    ensures VarintValue(f.tag) % 8 == WireTypeOf(f)
    decreases f, 2
  {
    assert IsVarint(f.tag) && Raw(f) + rest == f.tag + (Body(f) + rest);
    assert VarintValue(f.tag) % 8 == WireTypeOf(f);
    hide ReadVarint, SkipBody, Body, WellFormed, IsVarint, VarintValue;
    ReadFront(f.tag, Body(f) + rest);
    SkipConsumesBody(f, rest);
  }

  lemma {:induction false} SkipConsumesBody(f: WireField, rest: Bytes)
    requires WellFormed(f)
    ensures SkipBody(WireTypeOf(f), Body(f) + rest) == Ok(|Body(f)|)
    decreases f, 1
  {
    hide ReadFrom, SkipGroup, RawAll, WellFormedAll;
    match f
    case VarintField(_, payload) =>
      SkipVarintAgrees(payload + rest, 0, 0);
      ReadFront(payload, rest);
      hide SkipVarint;
    case Fixed64Field(_, _) =>
    case LengthField(_, length, payload) =>
      assert Body(f) + rest == length + (payload + rest);
      ReadFront(length, payload + rest);
    case GroupField(_, fields, end) =>
      SkipConsumesGroup(fields, end, rest);
    case Fixed32Field(_, _) =>
  }

  lemma {:induction false} SkipConsumesGroup(fs: seq<WireField>, end: Bytes, rest: Bytes)
    requires WellFormedAll(fs) && HasWireType(end, 4)
    ensures SkipGroup(RawAll(fs) + end + rest) == Ok(|RawAll(fs)| + |end|)
    decreases fs, 3
  {
    hide Skip, ReadVarint;
    if fs == [] {
      assert RawAll(fs) + end + rest == end + rest;
      ReadFront(end, rest);
    } else {
      hide SkipGroup;
      var f, tail := fs[0], RawAll(fs[1..]) + end + rest;
      assert RawAll(fs) + end + rest == Raw(f) + tail;
      SkipConsumesField(f, tail);
      assert (Raw(f) + tail)[|Raw(f)|..] == tail;
      SkipConsumesGroup(fs[1..], end, rest);
      SkipGroupStep(Raw(f) + tail, |Raw(f)|, |RawAll(fs[1..])| + |end|);
    }
  }

  lemma ConsField(f: WireField, more: seq<WireField>, end: Bytes, d: Bytes, n: nat, m: nat)
    requires WellFormed(f) && WellFormedAll(more) && n + m <= |d|
    requires Raw(f) == d[..n] && RawAll(more) + end == d[n..][..m]
    ensures WellFormedAll([f] + more) && RawAll([f] + more) + end == d[..n + m]
  {
    assert ([f] + more)[1..] == more;
    assert d[..n + m] == d[..n] + d[n..][..m];
  }

  lemma FrontIsVarint(d: Bytes)
    requires ReadVarint(d).Ok?
    ensures var n := ReadVarint(d).value.1;
            IsVarint(d[..n]) && VarintValue(d[..n]) == ReadVarint(d).value.0
  {
    var n := ReadVarint(d).value.1;
    ReadVarintIff(d, n);
    ReadFront(d[..n], d[n..]);
    assert d[..n] + d[n..] == d;
  }

  /** What the skipper accepts within the buffer is one well-formed field. */
  lemma {:induction false} SkippedIsField(d: Bytes) returns (f: WireField)
    requires Skip(d).Ok? && Skip(d).value <= |d|
    requires ReadVarint(d).value.0 % 8 != 4
    ensures WellFormed(f) && Raw(f) == d[..Skip(d).value]
    decreases |d|, 1
  {
    var (wire, t) := ReadVarint(d).value;
    FrontIsVarint(d);
    f := BodyIsField(d[..t], d[t..]);
    assert d[..Skip(d).value] == d[..t] + d[t..][..Skip(d).value - t];
  }

  lemma {:induction false} BodyIsField(tag: Bytes, d: Bytes) returns (f: WireField)
    requires IsVarint(tag) && VarintValue(tag) % 8 != 4
    requires var r := SkipBody(VarintValue(tag) % 8, d); r.Ok? && r.value <= |d|
    ensures WellFormed(f) && f.tag == tag
    ensures Body(f) == d[..SkipBody(VarintValue(tag) % 8, d).value]
    decreases |d|, 3
  {
    var w := VarintValue(tag) % 8;
    var n := SkipBody(w, d).value;
    if w == 0 {
      SkipVarintAgrees(d, 0, 0);
      ReadVarintIff(d, n);
      f := VarintField(tag, d[..n]);
    } else if w == 1 {
      f := Fixed64Field(tag, d[..8]);
    } else if w == 2 {
      FrontIsVarint(d);
      var l := ReadVarint(d).value.1;
      f := LengthField(tag, d[..l], d[l..n]);
    } else if w == 3 {
      var fs, end := SkippedIsGroup(d);
      f := GroupField(tag, fs, end);
    } else {
      f := Fixed32Field(tag, d[..4]);
    }
  }

  lemma {:induction false} SkippedIsGroup(d: Bytes) returns (fs: seq<WireField>, end: Bytes)
    requires SkipGroup(d).Ok?
    ensures WellFormedAll(fs) && HasWireType(end, 4)
    ensures RawAll(fs) + end == d[..SkipGroup(d).value]
    decreases |d|, 2
  {
    var (wire, t) := ReadVarint(d).value;
    FrontIsVarint(d);
    if wire % 8 == 4 {
      fs, end := [], d[..t];
    } else {
      var n := Skip(d).value;
      var f := SkippedIsField(d);
      var more;
      more, end := SkippedIsGroup(d[n..]);
      fs := [f] + more;
      ConsField(f, more, end, d, n, SkipGroup(d[n..]).value);
    }
  }

  ghost predicate IsField(s: Bytes) {
    exists f :: WellFormed(f) && Raw(f) == s
  }

  /** Outside an end-group tag, which the decoders refuse before they skip, the
      skipper takes n bytes of the buffer exactly when those n bytes are one
      well-formed field. */
  lemma SkipIff(d: Bytes, n: nat)
    requires n <= |d|
    ensures (Skip(d) == Ok(n) && ReadVarint(d).value.0 % 8 != 4) <==> IsField(d[..n])
  {
    if Skip(d) == Ok(n) && ReadVarint(d).value.0 % 8 != 4 {
      var f := SkippedIsField(d);
      assert WellFormed(f) && Raw(f) == d[..n];
    }
    if IsField(d[..n]) {
      var f :| WellFormed(f) && Raw(f) == d[..n];
      assert d == Raw(f) + d[n..];
      SkipConsumesField(f, d[n..]);
    }
  }

  // ----- The grammar of the standard -----

  /** A field whose groups all end with the tag of their own number. */
  predicate Standard(f: WireField)
    decreases f
  {
    && WellFormed(f)
    && (f.GroupField? ==> VarintValue(f.tag) / 8 == VarintValue(f.end) / 8 && StandardAll(f.fields))
  }

  predicate StandardAll(fs: seq<WireField>)
    decreases fs
  {
    fs == [] || (Standard(fs[0]) && StandardAll(fs[1..]))
  }

  /** Every field of the standard is skipped exactly. */
  lemma SkipConsumesStandard(f: WireField, rest: Bytes)
    requires Standard(f)
    ensures Skip(Raw(f) + rest) == Ok(|Raw(f)|) && IsField(Raw(f))
  {
    SkipConsumesField(f, rest);
  }

  lemma OneByte(b: byte)
    requires b < 128
    ensures IsVarint([b]) && VarintValue([b]) == b
  {
    VarintRoundTrip(b, []);
    assert [b] + [] == [b];
  }

  lemma OnlyThatGroup(g: WireField)
    requires WellFormed(g) && Raw(g) == [0x0b, 0x14]
    ensures g.GroupField? && VarintValue(g.tag) == 0x0b && VarintValue(g.end) == 0x14
  {
    assert g.tag[0] == Raw(g)[0] == 0x0b;
    assert |g.tag| == 1 && g.tag == [0x0b];
    OneByte(0x0b);
    OneByte(0x14);
    assert Body(g) == Raw(g)[1..] == [0x14];
    assert g.end[|g.end| - 1] == 0x14;
    assert |g.end| == 1 && g.end == [0x14];
  }

  lemma NoStandardGroup()
    ensures !exists f :: Standard(f) && Raw(f) == [0x0b, 0x14]
  {
    hide WellFormed, Raw, VarintValue;
    forall g | WellFormed(g) && Raw(g) == [0x0b, 0x14] ensures !Standard(g) {
      OnlyThatGroup(g);
    }
  }

  /** And so is a field that is none: the start of group 1 and the end of group 2. */
  lemma EndNumberIsIgnored()
    ensures IsField([0x0b, 0x14]) && Skip([0x0b, 0x14]) == Ok(2)
    ensures !exists f :: Standard(f) && Raw(f) == [0x0b, 0x14]
  {
    OneByte(0x0b);
    OneByte(0x14);
    var f := GroupField([0x0b], [], [0x14]);
    assert Raw(f) == [0x0b, 0x14] && WellFormed(f);
    hide Skip, WellFormed, Raw, ReadVarint, VarintValue;
    SkipConsumesField(f, []);
    assert Raw(f) + [] == Raw(f);
    NoStandardGroup();
  }

  /** Skipping looks only at the bytes it consumes. */
  lemma SkipLocal(d: Bytes, e: Bytes)
    requires Skip(d).Ok? && Skip(d).value <= |d|
    requires ReadVarint(d).value.0 % 8 != 4
    ensures Skip(d + e) == Skip(d)
  {
    var n := Skip(d).value;
    var f := SkippedIsField(d);
    assert d + e == Raw(f) + (d[n..] + e);
    SkipConsumesField(f, d[n..] + e);
  }
}
