/** The decoders with the source's own 64-bit indices, which wrap around for a
    declared length near 2^63, against the decoders of Schema, whose indices are
    unbounded (cluegetter.pb.go, lines 1021-2877). */
module Wrapping {
  import opened Wire
  import opened Schema

  /** No slice of bytes is this long. */
  const MAX_LENGTH: int := 0x4000_0000_0000_0000

  /** A sum of two indices, as a signed 64-bit integer. */
  function Wrap(x: nat): (r: int)
    ensures x < TWO_63 ==> r == x
    ensures TWO_63 <= x < TWO_63 + MAX_LENGTH ==> r < -MAX_LENGTH
  {
    if x < TWO_63 then x else x - TWO_64
  }

  /** skipCluegetter: the number of bytes taken, which is negative when the index
      wraps around. Without any bytes, which it is never given, it panics. */
  function SkipWrapped(d: Bytes): (r: Result<int>)
    requires |d| < MAX_LENGTH
    ensures r.Ok? ==> r.value >= 1 || r.value < -MAX_LENGTH
    decreases |d|, 1
  {
    if d == [] then Err(Panicked)
    else
      var (wire, t) :- ReadVarint(d);
      if wire % 8 == 3 then SkipGroupWrapped(d, t)
      else
        var n :- SkipBody(wire % 8, d[t..]);
        Ok(Wrap(t + n))
  }

  /** The loop over the fields of a group, at an index of d: a negative index is
      not at the end, and reading there panics. */
  function SkipGroupWrapped(d: Bytes, at: nat): (r: Result<int>)
    requires 1 <= at <= |d| < MAX_LENGTH
    ensures r.Ok? ==> at < r.value <= |d|
    decreases |d| - at, 2
  {
    var (wire, t) :- ReadVarint(d[at..]);
    if wire % 8 == 4 then Ok(at + t)
    else
      var next :- SkipWrapped(d[at..]);
      if next < 0 || Wrap(at + next) < 0 then Err(Panicked)
      else if at + next > |d| then Err(UnexpectedEof)
      else SkipGroupWrapped(d, at + next)
  }

  /** A field's payload at an index of the data: a slice that would end at a
      negative index panics. */
  function ReadPayloadWrapped(num: FieldNum, wireType: nat, data: Bytes, i: nat): (r: Result<(Field, nat)>)
    requires i <= |data| < MAX_LENGTH
    ensures r.Ok? ==> r == ReadPayload(num, wireType, data[i..])
  {
    if wireType == 0 || wireType == 1 then ReadPayload(num, wireType, data[i..])
    else
      var (len, n) :- ReadVarint(data[i..]);
      if len >= TWO_63 then Err(InvalidLength)
      else if Wrap(i + n + len) < 0 then Err(Panicked)
      else if i + n + len > |data| then Err(UnexpectedEof)
      else
        assert data[i + n..i + n + len] == data[i..][n..n + len];
        Ok((BytesF(num, data[i + n..i + n + len]), n + len))
  }

  /** The head of a pass of Unmarshal, at an index of its data. Past a wrapped
      skip the loop reads at a negative index. */
  function ReadItemWrapped(k: Kind, data: Bytes, i: nat): (r: Result<(Option<Field>, nat)>)
    requires i <= |data| < MAX_LENGTH
    ensures r.Ok? ==> 1 <= r.value.1 <= |data| - i
    ensures r.Ok? && r.value.0.Some? ==> Knows(k, r.value.0.value)
    ensures r.Ok? && r.value.0.Some? && r.value.0.value.BytesF? ==> |r.value.0.value.s| < |data| - i
  {
    var (wire, t) :- ReadVarint(data[i..]);
    var num := ToInt32(wire / 8);
    if wire % 8 == 4 then Err(EndGroup)
    else if num <= 0 then Err(IllegalTag)
    else if Expected(k, num).None? then
      var skippy :- SkipWrapped(data[i..]);
      if skippy < 0 then Err(InvalidLength)
      else if Wrap(i + skippy) < 0 then Err(Panicked)
      else if i + skippy > |data| then Err(UnexpectedEof)
      else Ok((None, skippy))
    else if Expected(k, num).value != wire % 8 then Err(WrongWireType)
    else
      var (f, n) :- ReadPayloadWrapped(num, wire % 8, data, i + t);
      Ok((Some(f), t + n))
  }

  // ----- Nested messages -----

  /** The message into which a nested field is decoded. */
  function Sub(m: Msg, num: int): Option<Msg> {
    match m
    case MessageMsg(x) =>
      if num == 1 then Some(SessionMsg(Or(x.session, NEW_SESSION)))
      else if num == 5 then Some(HeaderMsg(NEW_HEADER))
      else if num == 13 then Some(CheckMsg(NEW_CHECK))
      else None
    case LearnMsg(l) => if num == 2 then Some(MessageMsg(Or(l.message, NEW_MESSAGE))) else None
    case RpcMsg(p) =>
      if num == 1024 then Some(LearnMsg(Or(p.learn, NEW_LEARN)))
      else if num == 1025 then Some(LearnIdMsg(Or(p.learnId, NEW_LEARN_ID)))
      else None
    case _ => None
  }

  /** The message with what was decoded in its place. */
  function Put(m: Msg, num: int, s: Msg): (r: Msg)
    requires Sub(m, num).Some? && KindOf(s) == KindOf(Sub(m, num).value)
    ensures KindOf(r) == KindOf(m)
  {
    match m
    case MessageMsg(x) =>
      if num == 1 then MessageMsg(x.(session := Some(s.session)))
      else if num == 5 then MessageMsg(x.(headers := x.headers + [s.header]))
      else MessageMsg(x.(checkResults := x.checkResults + [s.check]))
    case LearnMsg(l) => LearnMsg(l.(message := Some(s.message)))
    case RpcMsg(p) =>
      if num == 1024 then RpcMsg(p.(learn := Some(s.learn))) else RpcMsg(p.(learnId := Some(s.learnId)))
    case _ => m
  }

  /** One pass through the switch of Unmarshal. */
  function ApplyWrapped(m: Msg, f: Field): (r: Result<Msg>)
    requires Knows(KindOf(m), f) && PayloadSize(f) < MAX_LENGTH
    ensures r.Ok? ==> KindOf(r.value) == KindOf(m)
    decreases PayloadSize(f), 2
  {
    if Sub(m, f.num).None? then Apply(m, f)
    else
      var s :- DecodeWrapped(Sub(m, f.num).value, f.s, 0);
      Ok(Put(m, f.num, s))
  }

  /** Unmarshal from an index of its data on. */
  function DecodeWrapped(m: Msg, data: Bytes, i: nat): (r: Result<Msg>)
    requires i <= |data| < MAX_LENGTH
    ensures r.Ok? ==> KindOf(r.value) == KindOf(m)
    decreases |data| - i, 0
  {
    if i == |data| then Ok(m)
    else
      var (f, n) :- ReadItemWrapped(KindOf(m), data, i);
      var next :- if f.Some? then ApplyWrapped(m, f.value) else Ok(m);
      DecodeWrapped(next, data, i + n)
  }

  lemma ApplyIs(m: Msg, f: Field)
    requires Knows(KindOf(m), f) && Sub(m, f.num).Some?
    ensures Apply(m, f) == match Decode(Sub(m, f.num).value, f.s)
                           case Ok(s) => Ok(Put(m, f.num, s))
                           case Err(e) => Err(e)
  {
    hide Decode;
  }

  // ----- What wrapping changes -----

  /** What the source does where unbounded indices give this result: the same, but
      where they meet the end of the data it may panic, or find a bad length. */
  ghost predicate Becomes<T>(exact: Result<T>, r: Result<T>) {
    exact == r || (exact == Err(UnexpectedEof) && r in {Err(Panicked), Err(InvalidLength)})
  }

  /** A field that is not the group's end starts here, and ends within the data. */
  predicate GoesOn(s: Bytes) {
    && ReadVarint(s).Ok? && ReadVarint(s).value.0 % 8 != 4
    && Skip(s).Ok? && Skip(s).value <= |s|
  }

  lemma BothStop(d: Bytes, at: nat)
    requires 1 <= at <= |d| < MAX_LENGTH && !GoesOn(d[at..])
    requires ReadVarint(d[at..]).Ok? && ReadVarint(d[at..]).value.0 % 8 != 4 ==>
               match Skip(d[at..])
               case Ok(n) => n < TWO_63 + |d[at..]| && SkipWrapped(d[at..]) == Ok(Wrap(n))
               case Err(e) => SkipWrapped(d[at..]) == Err(e)
                              || (e == UnexpectedEof && SkipWrapped(d[at..]) == Err(Panicked))
    ensures match SkipGroup(d[at..])
            case Ok(n) => SkipGroupWrapped(d, at) == Ok(at + n)
            case Err(e) =>
              SkipGroupWrapped(d, at) == Err(e) || (e == UnexpectedEof && SkipGroupWrapped(d, at) == Err(Panicked))
  {
    hide ReadVarint, Skip, SkipWrapped;
  }

  /** Past a field that is skipped within the data, both loops go on after it. */
  lemma BothGoOn(d: Bytes, at: nat, n: nat)
    requires 1 <= at <= |d| < MAX_LENGTH && n <= |d| - at
    requires ReadVarint(d[at..]).Ok? && ReadVarint(d[at..]).value.0 % 8 != 4
    requires Skip(d[at..]) == Ok(n) && SkipWrapped(d[at..]) == Ok(n)
    ensures SkipGroupWrapped(d, at) == SkipGroupWrapped(d, at + n)
    ensures SkipGroup(d[at..]) == match SkipGroup(d[at + n..])
                                  case Ok(m) => Ok(n + m)
                                  case Err(e) => Err(e)
  {
    hide ReadVarint, Skip, SkipWrapped;
    assert d[at..][n..] == d[at + n..];
  }

  lemma GroupSkips(d: Bytes)
    requires |d| < MAX_LENGTH && ReadVarint(d).Ok? && ReadVarint(d).value.0 % 8 == 3
    ensures var t := ReadVarint(d).value.1;
            && 1 <= t <= |d| && SkipWrapped(d) == SkipGroupWrapped(d, t)
            && Skip(d) == match SkipGroup(d[t..]) case Ok(n) => Ok(t + n) case Err(e) => Err(e)
  {
    hide ReadVarint, SkipGroup, SkipGroupWrapped;
  }

  lemma NothingSkips()
    ensures Skip([]) == Err(UnexpectedEof) && SkipWrapped([]) == Err(Panicked)
  {
    assert ReadVarint([]) == Err(UnexpectedEof);
  }

  lemma FlatSkips(d: Bytes)
    requires 0 < |d| < MAX_LENGTH && !(ReadVarint(d).Ok? && ReadVarint(d).value.0 % 8 == 3)
    ensures Skip(d).Ok? ==> Skip(d).value < TWO_63 + |d|
    ensures SkipWrapped(d) == if Skip(d).Ok? then Ok(Wrap(Skip(d).value)) else Err(Skip(d).error)
  {
    hide ReadVarint, SkipBody, SkipGroupWrapped, Wrap;
  }

  lemma {:induction false} SkipBecomes(d: Bytes)
    requires |d| < MAX_LENGTH
    ensures match Skip(d)
            case Ok(n) => n < TWO_63 + |d| && SkipWrapped(d) == Ok(Wrap(n))
            case Err(e) => SkipWrapped(d) == Err(e) || (e == UnexpectedEof && SkipWrapped(d) == Err(Panicked))
    decreases |d|, 1
  {
    hide ReadVarint, Skip, SkipWrapped;
    if ReadVarint(d).Ok? && ReadVarint(d).value.0 % 8 == 3 {
      SkipGroupBecomes(d, ReadVarint(d).value.1);
      GroupSkips(d);
    } else if d == [] {
      NothingSkips();
    } else {
      FlatSkips(d);
    }
  }

  lemma {:induction false} SkipGroupBecomes(d: Bytes, at: nat)
    requires 1 <= at <= |d| < MAX_LENGTH
    ensures match SkipGroup(d[at..])
            case Ok(n) => SkipGroupWrapped(d, at) == Ok(at + n)
            case Err(e) =>
              SkipGroupWrapped(d, at) == Err(e) || (e == UnexpectedEof && SkipGroupWrapped(d, at) == Err(Panicked))
    decreases |d| - at, 2
  {
    hide ReadVarint, Skip, SkipWrapped, SkipGroup, SkipGroupWrapped;
    var s := d[at..];
    if GoesOn(s) {
      var n := Skip(s).value;
      SkipBecomes(s);
      SkipGroupBecomes(d, at + n);
      BothGoOn(d, at, n);
    } else {
      if ReadVarint(s).Ok? && ReadVarint(s).value.0 % 8 != 4 {
        SkipBecomes(s);
      }
      BothStop(d, at);
    }
  }

  lemma PayloadBecomes(num: int, wireType: nat, data: Bytes, i: nat)
    requires i <= |data| < MAX_LENGTH
    ensures num > 0 ==> Becomes(ReadPayload(num, wireType, data[i..]), ReadPayloadWrapped(num, wireType, data, i))
  {
    hide ReadVarint, ReadFixed64;
  }

  lemma ItemBecomes(k: Kind, data: Bytes, i: nat)
    requires i <= |data| < MAX_LENGTH
    ensures Becomes(ReadItem(k, data[i..]), ReadItemWrapped(k, data, i))
  {
    hide ReadVarint, Skip, SkipWrapped, ReadPayload, ReadPayloadWrapped, Expected;
    var d := data[i..];
    SkipBecomes(d);
    if ReadVarint(d).Ok? {
      var (wire, t) := ReadVarint(d).value;
      assert d[t..] == data[i + t..];
      PayloadBecomes(ToInt32(wire / 8), wire % 8, data, i + t);
    }
  }

  lemma {:induction false} DecodeBecomes(m: Msg, data: Bytes, i: nat)
    requires i <= |data| < MAX_LENGTH
    ensures Becomes(Decode(m, data[i..]), DecodeWrapped(m, data, i))
    decreases |data| - i, 0
  {
    hide ReadItem, ReadItemWrapped, Apply, ApplyWrapped;
    if i < |data| {
      ItemBecomes(KindOf(m), data, i);
      var item := ReadItemWrapped(KindOf(m), data, i);
      if item.Ok? {
        var (f, n) := item.value;
        assert data[i..][n..] == data[i + n..];
        if f.Some? {
          ApplyBecomes(m, f.value);
        }
        var next := if f.Some? then ApplyWrapped(m, f.value) else Ok(m);
        if next.Ok? {
          DecodeBecomes(next.value, data, i + n);
        }
      }
    }
  }

  lemma {:induction false} ApplyBecomes(m: Msg, f: Field)
    requires Knows(KindOf(m), f) && PayloadSize(f) < MAX_LENGTH
    ensures Becomes(Apply(m, f), ApplyWrapped(m, f))
    decreases PayloadSize(f), 2
  {
    if Sub(m, f.num).Some? {
      hide Apply, Decode, Put, Sub;
      ApplyIs(m, f);
      assert f.s[0..] == f.s;
      DecodeBecomes(Sub(m, f.num).value, f.s, 0);
    }
  }

  /** Data that the source decodes at all, it decodes as with unbounded indices, and
      it decodes all that those do. So every law of decoding that ends in a value is
      a law of the source; what differs is only the error at an end of the data. */
  lemma DecodesAlike(m: Msg, d: Bytes)
    requires |d| < MAX_LENGTH
    ensures DecodeWrapped(m, d, 0).Ok? <==> Decode(m, d).Ok?
    ensures Decode(m, d).Ok? || Decode(m, d).error != UnexpectedEof ==> DecodeWrapped(m, d, 0) == Decode(m, d)
  {
    assert d[0..] == d;
    DecodeBecomes(m, d, 0);
  }

  /** A length-delimited field starts here, with a length that is not negative. */
  predicate Delimited(data: Bytes, i: nat)
    requires i <= |data|
  {
    && ReadVarint(data[i..]).Ok?
    && var (wire, t) := ReadVarint(data[i..]).value;
       && wire % 8 == 2 && ToInt32(wire / 8) > 0
       && ReadVarint(data[i + t..]).Ok? && ReadVarint(data[i + t..]).value.0 < TWO_63
  }

  /** The index just past the length-delimited field at an index. */
  function EndOf(data: Bytes, i: nat): nat
    requires i <= |data| && Delimited(data, i)
  {
    var (_, t) := ReadVarint(data[i..]).value;
    var (len, n) := ReadVarint(data[i + t..]).value;
    i + t + n + len
  }

  lemma SkipDelimited(d: Bytes)
    requires |d| < MAX_LENGTH && Delimited(d, 0)
    ensures Skip(d) == Ok(EndOf(d, 0)) && SkipWrapped(d) == Ok(Wrap(EndOf(d, 0)))
  {
    hide ReadVarint;
    assert d[0..] == d;
  }

  lemma PayloadDelimited(num: FieldNum, data: Bytes, i: nat)
    requires i <= |data| < MAX_LENGTH && ReadVarint(data[i..]).Ok? && ReadVarint(data[i..]).value.0 < TWO_63
    ensures var (len, n) := ReadVarint(data[i..]).value;
            && (i + n + len < TWO_63 ==> ReadPayloadWrapped(num, 2, data, i) == ReadPayload(num, 2, data[i..]))
            && (i + n + len >= TWO_63 ==>
                  ReadPayloadWrapped(num, 2, data, i) == Err(Panicked)
                  && ReadPayload(num, 2, data[i..]) == Err(UnexpectedEof))
  {
    hide ReadVarint;
    var (len, n) := ReadVarint(data[i..]).value;
    if i + n + len <= |data| {
      assert data[i + n..i + n + len] == data[i..][n..n + len];
    }
  }

  /** A length-delimited field that is known, or of an unknown number, is read as with
      unbounded indices if and only if it ends below 2^63. Past that the source
      panics, but for the length that alone wraps a skip, which it refuses. */
  lemma DelimitedWrapsIff(k: Kind, data: Bytes, i: nat)
    requires i <= |data| < MAX_LENGTH && Delimited(data, i)
    ensures var num := ToInt32(ReadVarint(data[i..]).value.0 / 8);
            Expected(k, num) in {None, Some(2)} ==>
              && (ReadItemWrapped(k, data, i) == ReadItem(k, data[i..]) <==> EndOf(data, i) < TWO_63)
              && (EndOf(data, i) >= TWO_63 ==>
                    ReadItem(k, data[i..]) == Err(UnexpectedEof)
                    && ReadItemWrapped(k, data, i)
                       == Err(if Expected(k, num).None? && EndOf(data, i) - i >= TWO_63
                              then InvalidLength else Panicked))
  {
    hide ReadVarint, Skip, SkipWrapped, ReadPayload, ReadPayloadWrapped;
    var (wire, t) := ReadVarint(data[i..]).value;
    assert data[i..][t..] == data[i + t..];
    SkipDelimited(data[i..]);
    PayloadDelimited(ToInt32(wire / 8), data, i + t);
  }

  const LONGEST: Bytes := [0xff, 0xff, 0xff, 0xff, 0xff, 0xff, 0xff, 0xff, 0x7f]

  function Ones(n: nat): Bytes {
    if n == 0 then [0x7f] else [0xff] + Ones(n - 1)
  }

  lemma {:induction false} OnesAre(n: nat)
    ensures EncVarint(Pow128(n + 1) - 1) == Ones(n)
  {
    if n > 0 {
      OnesAre(n - 1);
      var p := Pow128(n);
      assert Pow128(n + 1) - 1 == 128 * (p - 1) + 127;
      assert (128 * (p - 1) + 127) / 128 == p - 1;
    }
  }

  lemma LongestIs()
    ensures EncVarint(TWO_63 - 1) == LONGEST
  {
    OnesAre(8);
    Pow128Values();
    assert Ones(4) == [0xff, 0xff, 0xff, 0xff, 0x7f];
    assert Ones(8) == [0xff, 0xff, 0xff, 0xff] + Ones(4);
  }

  lemma FirstFails(m: Msg, d: Bytes)
    requires 1 <= |d| < MAX_LENGTH
    requires ReadItem(KindOf(m), d[0..]).Err? && ReadItemWrapped(KindOf(m), d, 0).Err?
    ensures Decode(m, d) == Err(ReadItem(KindOf(m), d[0..]).error)
    ensures DecodeWrapped(m, d, 0) == Err(ReadItemWrapped(KindOf(m), d, 0).error)
  {
    hide ReadItem, ReadItemWrapped;
    assert d[0..] == d;
  }

  lemma Numbers(tag: nat)
    requires tag == 0x12 || tag == 0x7a
    ensures Expected(KMessage, ToInt32(tag / 8)) == if tag == 0x12 then Some(2) else None
  {
  }

  lemma ReadsTag(tag: byte, rest: Bytes)
    requires tag < 128
    ensures ReadVarint([tag] + rest) == Ok((tag, 1))
  {
    VarintRoundTrip(tag, rest);
  }

  lemma ReadsLongest()
    ensures ReadVarint(LONGEST) == Ok((TWO_63 - 1, |LONGEST|))
  {
    LongestIs();
    VarintRoundTrip(TWO_63 - 1, []);
    assert LONGEST + [] == LONGEST;
  }

  lemma LongDelimited(tag: byte)
    requires tag == 0x12 || tag == 0x7a
    ensures var d := [tag] + LONGEST;
            && |d| == 10 < MAX_LENGTH && d[0..] == d
            && Delimited(d, 0) && EndOf(d, 0) == |d| + TWO_63 - 1 >= TWO_63
  {
    ReadsTag(tag, LONGEST);
    ReadsLongest();
    assert |LONGEST| == 9;
    hide ReadVarint, LONGEST;
    var d := [tag] + LONGEST;
    assert d[0..] == d && d[0 + 1..] == LONGEST;
  }

  lemma LongLength(tag: byte)
    requires tag == 0x12 || tag == 0x7a
    ensures var d := [tag] + LONGEST;
            && |d| == 10 && ReadItem(KMessage, d[0..]) == Err(UnexpectedEof)
            && ReadItemWrapped(KMessage, d, 0) == Err(if tag == 0x12 then Panicked else InvalidLength)
  {
    hide *;
    LongDelimited(tag);
    ReadsTag(tag, LONGEST);
    Numbers(tag);
    DelimitedWrapsIff(KMessage, [tag] + LONGEST, 0);
  }

  lemma LongDecode(m: Msg, tag: byte)
    requires KindOf(m) == KMessage && (tag == 0x12 || tag == 0x7a)
    ensures var d := [tag] + LONGEST;
            && |d| == 10 && Decode(m, d) == Err(UnexpectedEof)
            && DecodeWrapped(m, d, 0) == Err(if tag == 0x12 then Panicked else InvalidLength)
  {
    LongLength(tag);
    hide *;
    FirstFails(m, [tag] + LONGEST);
  }

  /** The condition is met: a message whose id declares 2^63 - 1 bytes panics, and an
      unknown field that does so is refused, where unbounded indices would find the
      end of the data. */
  lemma LongLengthWraps(m: Msg)
    requires KindOf(m) == KMessage
    ensures var id, unknown := [0x12] + LONGEST, [0x7a] + LONGEST;
            && |id| == |unknown| == 10
            && DecodeWrapped(m, id, 0) == Err(Panicked) && DecodeWrapped(m, unknown, 0) == Err(InvalidLength)
            && Decode(m, id) == Decode(m, unknown) == Err(UnexpectedEof)
  {
    LongDecode(m, 0x12);
    LongDecode(m, 0x7a);
    hide *;
  }
}
