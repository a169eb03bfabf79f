/** Laws of the codec: locality of every reader, decoding a concatenation,
    tolerance of unknown fields, merging and the round trip (cluegetter.pb.go,
    lines 238-733, 1021-2778; Protocol Buffers Encoding, sections "Message
    Structure" and "Last One Wins"). */
module CodecLaws {
  import opened Wire
  import opened Schema
  import Skipping

  // ----- Locality and concatenation -----

  lemma PayloadLocal(num: FieldNum, w: nat, d: Bytes, e: Bytes)
    requires ReadPayload(num, w, d).Ok?
    ensures ReadPayload(num, w, d + e) == ReadPayload(num, w, d)
  {
    if w == 1 {
      assert (d + e)[..8] == d[..8];
    } else {
      VarintLocal(d, e);
      if w != 0 {
        var (len, n) := ReadVarint(d).value;
        assert (d + e)[n..n + len] == d[n..n + len];
      }
    }
  }

  /** A field that can be read is read the same whatever follows it. */
  lemma ItemLocal(k: Kind, d: Bytes, e: Bytes)
    requires ReadItem(k, d).Ok?
    ensures ReadItem(k, d + e) == ReadItem(k, d)
  {
    hide ReadVarint, Skip, ReadPayload, Expected;
    VarintLocal(d, e);
    var (wire, t) := ReadVarint(d).value;
    var num := ToInt32(wire / 8);
    if Expected(k, num).None? {
      Skipping.SkipLocal(d, e);
    } else {
      assert (d + e)[t..] == d[t..] + e;
      PayloadLocal(num, wire % 8, d[t..], e);
    }
  }

  /** Bytes that decode on their own can be decoded first: the rest is decoded
      into what they gave, with the same result or the same error. */
  lemma {:induction false} DecodeConcat(m: Msg, x: Bytes, y: Bytes)
    requires Decode(m, x).Ok?
    ensures Decode(m, x + y) == Decode(Decode(m, x).value, y)
    decreases |x|
  {
    if x == [] {
      assert x + y == y;
    } else {
      ItemLocal(KindOf(m), x, y);
      var (f, n) := ReadItem(KindOf(m), x).value;
      var next := if f.Some? then Apply(m, f.value) else Ok(m);
      assert (x + y)[n..] == x[n..] + y;
      DecodeConcat(next.value, x[n..], y);
    }
  }

  // ----- Unknown fields -----

  /** The number that a well-formed field carries, as the decoders read it. */
  function NumberOf(f: Skipping.WireField): int32
    requires Skipping.WellFormed(f)
  {
    ToInt32(Skipping.VarintValue(f.tag) / 8)
  }

  /** A field with a number that the type does not know decodes to no change. */
  lemma UnknownFieldAlone(m: Msg, f: Skipping.WireField)
    requires Skipping.WellFormed(f)
    requires NumberOf(f) > 0 && Expected(KindOf(m), NumberOf(f)).None?
    ensures Decode(m, Skipping.Raw(f)) == Ok(m)
  {
    var d := Skipping.Raw(f);
    Skipping.SkipConsumesField(f, []);
    assert d + [] == d;
    assert ReadItem(KindOf(m), d) == Ok((None, |d|));
    assert d[|d|..] == [];
  }

  /** Inserting such a field at any field boundary changes nothing. */
  lemma UnknownFieldIgnored(m: Msg, x: Bytes, f: Skipping.WireField, y: Bytes)
    requires Decode(m, x).Ok?
    requires Skipping.WellFormed(f)
    requires NumberOf(f) > 0 && Expected(KindOf(m), NumberOf(f)).None?
    ensures Decode(m, x + Skipping.Raw(f) + y) == Decode(m, x + y)
  {
    var next := Decode(m, x).value;
    var d := Skipping.Raw(f);
    assert x + d + y == x + (d + y);
    DecodeConcat(m, x, d + y);
    UnknownFieldAlone(next, f);
    DecodeConcat(next, d, y);
    DecodeConcat(m, x, y);
  }

  // ----- Decoding what was encoded -----

  lemma TagRead(num: FieldNum, w: nat, rest: Bytes)
    requires num < TWO_31 && w < 8
    ensures ReadVarint(Tag(num, w) + rest) == Ok((num * 8 + w, |Tag(num, w)|))
    ensures ToInt32((num * 8 + w) / 8) == num && (num * 8 + w) % 8 == w
  {
    hide ReadVarint, EncVarint;
    VarintRoundTrip(num * 8 + w, rest);
    assert (num * 8 + w) / 8 == num;
  }

  function Payload(f: Field): Bytes {
    match f
    case VarintF(_, v) => EncVarint(v)
    case Fixed64F(_, v) => LittleEndian(v, 8)
    case BytesF(_, s) => EncVarint(|s|) + s
  }

  lemma PayloadRead(f: Field, rest: Bytes)
    requires PayloadSize(f) < TWO_63
    ensures ReadPayload(f.num, WireOf(f), Payload(f) + rest) == Ok((f, |Payload(f)|))
  {
    match f
    case VarintF(_, v) => VarintRoundTrip(v, rest);
    case Fixed64F(_, v) => Fixed64RoundTrip(v, rest);
    case BytesF(_, s) =>
      var p := EncVarint(|s|);
      assert Payload(f) + rest == p + (s + rest);
      VarintRoundTrip(|s|, s + rest);
      assert (p + (s + rest))[|p|..|p| + |s|] == s;
  }

  lemma ItemFromParts(k: Kind, f: Field, d: Bytes, wire: uint64, t: nat, n: nat)
    requires Knows(k, f) && ReadVarint(d) == Ok((wire, t))
    requires ToInt32(wire / 8) == f.num && wire % 8 == WireOf(f)
    requires ReadPayload(f.num, WireOf(f), d[t..]) == Ok((f, n))
    ensures ReadItem(k, d) == Ok((Some(f), t + n))
  {
  }

  lemma KnownNumber(k: Kind, f: Field)
    requires Knows(k, f)
    ensures f.num <= 1025 && f.num < TWO_31 && WireOf(f) < 8
  {
  }

  lemma EncFieldParts(f: Field)
    ensures EncField(f) == Tag(f.num, WireOf(f)) + Payload(f)
  {
  }

  /** An encoded field is read back, and reading stops right after it. */
  lemma ItemOfField(k: Kind, f: Field, rest: Bytes)
    requires Knows(k, f) && PayloadSize(f) < TWO_63
    ensures ReadItem(k, EncField(f) + rest) == Ok((Some(f), |EncField(f)|))
  {
    hide *;
    var tag, tail := Tag(f.num, WireOf(f)), Payload(f) + rest;
    KnownNumber(k, f);
    TagRead(f.num, WireOf(f), tail);
    PayloadRead(f, rest);
    EncFieldParts(f);
    assert EncField(f) + rest == tag + tail;
    assert (tag + tail)[|tag|..] == tail;
    ItemFromParts(k, f, tag + tail, f.num * 8 + WireOf(f), |tag|, |Payload(f)|);
  }

  lemma DecodeField(m: Msg, f: Field)
    requires Knows(KindOf(m), f) && PayloadSize(f) < TWO_63
    ensures Decode(m, EncField(f)) == Apply(m, f)
  {
    ItemOfField(KindOf(m), f, []);
    assert EncField(f) + [] == EncField(f);
    assert EncField(f)[|EncField(f)|..] == [];
  }

  function ApplyFields(m: Msg, fs: seq<Field>): (r: Result<Msg>)
    requires AllKnown(KindOf(m), fs)
    ensures r.Ok? ==> KindOf(r.value) == KindOf(m)
  {
    if fs == [] then Ok(m)
    else
      var next :- ApplyFields(m, fs[..|fs| - 1]);
      Apply(next, fs[|fs| - 1])
  }

  /** The decoder's switch takes the fields in turn and ends in `after`. */
  ghost predicate Gives(m: Msg, fs: seq<Field>, after: Msg) {
    AllKnown(KindOf(m), fs) && ApplyFields(m, fs) == Ok(after)
  }

  lemma {:induction false} DecodeFields(m: Msg, fs: seq<Field>)
    requires AllKnown(KindOf(m), fs) && |EncFields(fs)| < TWO_63
    requires ApplyFields(m, fs).Ok?
    ensures Decode(m, EncFields(fs)) == ApplyFields(m, fs)
    decreases |fs|
  {
    if fs != [] {
      var init, last := fs[..|fs| - 1], fs[|fs| - 1];
      DecodeFields(m, init);
      DecodeConcat(m, EncFields(init), EncField(last));
      DecodeField(ApplyFields(m, init).value, last);
    }
  }

  lemma {:induction false} GroupsPrefix(g: Groups, k: nat)
    requires k <= |g|
    ensures |EncGroups(g[..k])| <= |EncGroups(g)|
    ensures k < |g| ==> EncGroups(g[..k + 1]) == EncGroups(g[..k]) + EncFields(g[k])
    ensures k < |g| ==> |EncGroups(g[..k])| + |EncFields(g[k])| <= |EncGroups(g)|
    decreases |g| - k
  {
    if k < |g| {
      GroupsPrefix(g, k + 1);
      assert g[..k + 1][..k] == g[..k];
    } else {
      assert g[..k] == g;
    }
  }

  /** Decoding one more group of fields. */
  lemma Step(m: Msg, g: Groups, k: nat, before: Msg, after: Msg)
    requires k < |g| && |EncGroups(g)| < TWO_63
    requires Decode(m, EncGroups(g[..k])) == Ok(before)
    requires Gives(before, g[k], after)
    ensures Decode(m, EncGroups(g[..k + 1])) == Ok(after)
  {
    GroupsPrefix(g, k);
    DecodeConcat(m, EncGroups(g[..k]), EncFields(g[k]));
    DecodeFields(before, g[k]);
  }

  lemma StepOne(m: Msg, g: Groups, k: nat, f: Field, before: Msg, after: Msg)
    requires k < |g| && |EncGroups(g)| < TWO_63
    requires Decode(m, EncGroups(g[..k])) == Ok(before)
    requires g[k] == [f] && Knows(KindOf(before), f) && Apply(before, f) == Ok(after)
    ensures Decode(m, EncGroups(g[..k + 1])) == Ok(after)
  {
    assert g[k][..0] == [];
    assert ApplyFields(before, []) == Ok(before);
    Step(m, g, k, before, after);
  }

  lemma StepNone(m: Msg, g: Groups, k: nat, before: Msg)
    requires k < |g| && |EncGroups(g)| < TWO_63
    requires Decode(m, EncGroups(g[..k])) == Ok(before)
    requires g[k] == []
    ensures Decode(m, EncGroups(g[..k + 1])) == Ok(before)
  {
    Step(m, g, k, before, before);
  }

  lemma StepBytes(m: Msg, g: Groups, k: nat, num: FieldNum, s: Bytes, before: Msg, after: Msg)
    requires k < |g| && |EncGroups(g)| < TWO_63
    requires Decode(m, EncGroups(g[..k])) == Ok(before)
    requires g[k] == OptBytes(num, s) && Expected(KindOf(before), num) == Some(2)
    requires if s == [] then after == before else Apply(before, BytesF(num, s)) == Ok(after)
    ensures Decode(m, EncGroups(g[..k + 1])) == Ok(after)
  {
    if s == [] { StepNone(m, g, k, before); } else { StepOne(m, g, k, BytesF(num, s), before, after); }
  }

  lemma StepVarint(m: Msg, g: Groups, k: nat, num: FieldNum, v: uint64, before: Msg, after: Msg)
    requires k < |g| && |EncGroups(g)| < TWO_63
    requires Decode(m, EncGroups(g[..k])) == Ok(before)
    requires g[k] == OptVarint(num, v) && Expected(KindOf(before), num) == Some(0)
    requires if v == 0 then after == before else Apply(before, VarintF(num, v)) == Ok(after)
    ensures Decode(m, EncGroups(g[..k + 1])) == Ok(after)
  {
    if v == 0 { StepNone(m, g, k, before); } else { StepOne(m, g, k, VarintF(num, v), before, after); }
  }

  lemma StepDouble(m: Msg, g: Groups, k: nat, num: FieldNum, v: uint64, before: Msg, after: Msg)
    requires k < |g| && |EncGroups(g)| < TWO_63
    requires Decode(m, EncGroups(g[..k])) == Ok(before)
    requires g[k] == OptDouble(num, v) && Expected(KindOf(before), num) == Some(1)
    requires if NonZero(v) then Apply(before, Fixed64F(num, v)) == Ok(after) else after == before
    ensures Decode(m, EncGroups(g[..k + 1])) == Ok(after)
  {
    if NonZero(v) { StepOne(m, g, k, Fixed64F(num, v), before, after); } else { StepNone(m, g, k, before); }
  }

  // ----- Merging -----

  function LastBytes(x: Bytes, y: Bytes): Bytes {
    if |y| > 0 then y else x
  }

  function LastInt(x: int, y: int): int {
    if y != 0 then y else x
  }

  function LastDouble(x: uint64, y: uint64): uint64 {
    if NonZero(y) then y else x
  }

  function MergeHeader(x: Header, y: Header): Header {
    Header(LastBytes(x.key, y.key), LastBytes(x.value, y.value))
  }

  function MergeCheck(x: CheckResult, y: CheckResult): CheckResult {
    CheckResult(
      LastBytes(x.messageId, y.messageId), LastBytes(x.moduleName, y.moduleName),
      LastInt(x.verdict, y.verdict), LastDouble(x.score, y.score),
      LastDouble(x.weightedScore, y.weightedScore), LastDouble(x.duration, y.duration),
      LastBytes(x.determinants, y.determinants))
  }

  function MergeSession(x: Session, y: Session): Session {
    Session(
      LastInt(x.instanceId, y.instanceId), LastBytes(x.id, y.id),
      LastInt(x.timeStart, y.timeStart), LastInt(x.timeEnd, y.timeEnd),
      LastBytes(x.saslUsername, y.saslUsername), LastBytes(x.saslSender, y.saslSender),
      LastBytes(x.saslMethod, y.saslMethod), LastBytes(x.certIssuer, y.certIssuer),
      LastBytes(x.certSubject, y.certSubject), LastInt(x.cipherBits, y.cipherBits),
      LastBytes(x.cipher, y.cipher), LastBytes(x.tlsVersion, y.tlsVersion), LastBytes(x.ip, y.ip),
      LastBytes(x.reverseDns, y.reverseDns), LastBytes(x.hostname, y.hostname),
      LastBytes(x.helo, y.helo), LastBytes(x.mtaHostName, y.mtaHostName),
      LastBytes(x.mtaDaemonName, y.mtaDaemonName))
  }

  function PlusZero(bits: uint64): uint64 {
    if bits == TWO_63 then 0 else bits
  }

  function PlusZeroCheck(c: CheckResult): CheckResult {
    c.(score := PlusZero(c.score), weightedScore := PlusZero(c.weightedScore), duration := PlusZero(c.duration))
  }

  function PlusZeroChecks(cs: seq<CheckResult>): (r: seq<CheckResult>)
    ensures |r| == |cs|
    ensures forall i :: 0 <= i < |cs| ==> r[i] == PlusZeroCheck(cs[i])
  {
    seq(|cs|, i requires 0 <= i < |cs| => PlusZeroCheck(cs[i]))
  }

  function MergeMessage(x: Message, y: Message): Message {
    Message(
      if y.session.None? then x.session
      else Some(MergeSession(Or(x.session, NEW_SESSION), y.session.value)),
      LastBytes(x.id, y.id), LastBytes(x.from, y.from), x.rcpt + y.rcpt, x.headers + y.headers,
      LastBytes(x.body, y.body), LastInt(x.verdict, y.verdict), LastBytes(x.verdictMsg, y.verdictMsg),
      LastDouble(x.rejectScore, y.rejectScore),
      LastDouble(x.rejectScoreThreshold, y.rejectScoreThreshold),
      LastDouble(x.tempfailScore, y.tempfailScore),
      LastDouble(x.tempfailScoreThreshold, y.tempfailScoreThreshold),
      x.checkResults + PlusZeroChecks(y.checkResults))
  }

  function MergeLearn(x: Learn, y: Learn): Learn {
    Learn(
      x.isSpam || y.isSpam,
      if y.message.None? then x.message
      else Some(MergeMessage(Or(x.message, NEW_MESSAGE), y.message.value)),
      LastBytes(x.host, y.host), LastBytes(x.reporter, y.reporter), LastBytes(x.reason, y.reason))
  }

  function MergeLearnId(x: LearnId, y: LearnId): LearnId {
    LearnId(
      x.isSpam || y.isSpam, LastBytes(x.messageId, y.messageId),
      LastBytes(x.host, y.host), LastBytes(x.reporter, y.reporter), LastBytes(x.reason, y.reason))
  }

  function MergeRpc(x: Rpc, y: Rpc): Rpc {
    Rpc(
      LastBytes(x.name, y.name),
      if y.learn.None? then x.learn else Some(MergeLearn(Or(x.learn, NEW_LEARN), y.learn.value)),
      if y.learnId.None? then x.learnId
      else Some(MergeLearnId(Or(x.learnId, NEW_LEARN_ID), y.learnId.value)))
  }

  /** The merge of two messages of one type: a repeated field appends, a set
      scalar of the second wins, a nested message merges with the first's. */
  function Merge(x: Msg, y: Msg): Msg
    requires KindOf(x) == KindOf(y)
  {
    match y
    case HeaderMsg(h) => HeaderMsg(MergeHeader(x.header, h))
    case CheckMsg(c) => CheckMsg(MergeCheck(x.check, c))
    case SessionMsg(s) => SessionMsg(MergeSession(x.session, s))
    case MessageMsg(m) => MessageMsg(MergeMessage(x.message, m))
    case LearnMsg(l) => LearnMsg(MergeLearn(x.learn, l))
    case LearnIdMsg(l) => LearnIdMsg(MergeLearnId(x.learnId, l))
    case RpcMsg(r) => RpcMsg(MergeRpc(x.rpc, r))
  }

  // ----- Negative zero: the one value that encoding does not keep -----

  function PlusZeroMessage(m: Message): Message {
    m.(rejectScore := PlusZero(m.rejectScore), rejectScoreThreshold := PlusZero(m.rejectScoreThreshold),
       tempfailScore := PlusZero(m.tempfailScore),
       tempfailScoreThreshold := PlusZero(m.tempfailScoreThreshold),
       checkResults := PlusZeroChecks(m.checkResults))
  }

  function PlusZeroLearn(l: Learn): Learn {
    if l.message.None? then l else l.(message := Some(PlusZeroMessage(l.message.value)))
  }

  /** The message with every -0.0 replaced by 0.0. */
  function Normalize(m: Msg): Msg {
    match m
    case CheckMsg(c) => CheckMsg(PlusZeroCheck(c))
    case MessageMsg(x) => MessageMsg(PlusZeroMessage(x))
    case LearnMsg(l) => LearnMsg(PlusZeroLearn(l))
    case RpcMsg(r) =>
      RpcMsg(if r.learn.None? then r else r.(learn := Some(PlusZeroLearn(r.learn.value))))
    case _ => m
  }

  // ----- Decoding an encoded message into another one merges them -----

  lemma Start(m: Msg, g: Groups)
    ensures Decode(m, EncGroups(g[..0])) == Ok(m)
  {
  }

  lemma DecodeHeader(x: Header, y: Header)
    requires |EncGroups(HeaderGroups(y))| < TWO_63
    ensures Decode(HeaderMsg(x), EncGroups(HeaderGroups(y))) == Ok(HeaderMsg(MergeHeader(x, y)))
  {
    hide Decode, EncGroups;
    var m, g := HeaderMsg(x), HeaderGroups(y);
    Start(m, g);
    var a0 := x.(key := LastBytes(x.key, y.key));
    StepBytes(m, g, 0, 1, y.key, HeaderMsg(x), HeaderMsg(a0));
    var a1 := a0.(value := LastBytes(x.value, y.value));
    StepBytes(m, g, 1, 2, y.value, HeaderMsg(a0), HeaderMsg(a1));
    assert g[..2] == g;
  }

  /** x with the first k fields of y merged in. */
  function MergeCheckTo(x: CheckResult, y: CheckResult, k: nat): CheckResult {
    var z := MergeCheck(x, y);
    CheckResult(
      if k > 0 then z.messageId else x.messageId,
      if k > 1 then z.moduleName else x.moduleName,
      if k > 2 then z.verdict else x.verdict,
      if k > 3 then z.score else x.score,
      if k > 4 then z.weightedScore else x.weightedScore,
      if k > 5 then z.duration else x.duration,
      if k > 6 then z.determinants else x.determinants)
  }

  ghost predicate CheckDecodedTo(x: CheckResult, y: CheckResult, k: nat)
    requires k <= 7
  {
    Decode(CheckMsg(x), EncGroups(CheckGroups(y)[..k])) == Ok(CheckMsg(MergeCheckTo(x, y, k)))
  }

  lemma DecodeCheckFirst(x: CheckResult, y: CheckResult, k: nat)
    requires |EncGroups(CheckGroups(y))| < TWO_63 && k < 3 && CheckDecodedTo(x, y, k)
    ensures CheckDecodedTo(x, y, k + 1)
  {
    hide Decode, EncGroups, ApplyMessage, ApplyLearn, ApplyRpc, OptBytes, OptVarint, OptDouble;
    var m, g := CheckMsg(x), CheckGroups(y);
    var a, b := CheckMsg(MergeCheckTo(x, y, k)), CheckMsg(MergeCheckTo(x, y, k + 1));
    match k
    case 0 => StepBytes(m, g, 0, 1, y.messageId, a, b);
    case 1 => StepBytes(m, g, 1, 2, y.moduleName, a, b);
    case _ => StepVarint(m, g, 2, 3, FromInt32(y.verdict), a, b);
  }

  lemma DecodeCheckLast(x: CheckResult, y: CheckResult, k: nat)
    requires |EncGroups(CheckGroups(y))| < TWO_63 && 3 <= k < 7 && CheckDecodedTo(x, y, k)
    ensures CheckDecodedTo(x, y, k + 1)
  {
    hide Decode, EncGroups, ApplyMessage, ApplyLearn, ApplyRpc, OptBytes, OptVarint, OptDouble;
    var m, g := CheckMsg(x), CheckGroups(y);
    var a, b := CheckMsg(MergeCheckTo(x, y, k)), CheckMsg(MergeCheckTo(x, y, k + 1));
    match k
    case 3 => StepDouble(m, g, 3, 4, y.score, a, b);
    case 4 => StepDouble(m, g, 4, 5, y.weightedScore, a, b);
    case 5 => StepDouble(m, g, 5, 6, y.duration, a, b);
    case _ => StepBytes(m, g, 6, 7, y.determinants, a, b);
  }

  lemma {:induction false} DecodeCheckTo(x: CheckResult, y: CheckResult, k: nat)
    requires |EncGroups(CheckGroups(y))| < TWO_63 && k <= 7
    ensures CheckDecodedTo(x, y, k)
    decreases k
  {
    hide Decode, EncGroups;
    if k == 0 {
      Start(CheckMsg(x), CheckGroups(y));
    } else {
      DecodeCheckTo(x, y, k - 1);
      hide CheckDecodedTo;
      if k <= 3 { DecodeCheckFirst(x, y, k - 1); } else { DecodeCheckLast(x, y, k - 1); }
    }
  }

  lemma DecodeCheck(x: CheckResult, y: CheckResult)
    requires |EncGroups(CheckGroups(y))| < TWO_63
    ensures Decode(CheckMsg(x), EncGroups(CheckGroups(y))) == Ok(CheckMsg(MergeCheck(x, y)))
  {
    hide Decode, EncGroups;
    DecodeCheckTo(x, y, 7);
    assert CheckGroups(y)[..7] == CheckGroups(y);
  }

  /** x with the first k fields of y merged in. */
  function MergeSessionTo(x: Session, y: Session, k: nat): Session {
    var z := MergeSession(x, y);
    Session(
      if k > 0 then z.instanceId else x.instanceId,
      if k > 1 then z.id else x.id,
      if k > 2 then z.timeStart else x.timeStart,
      if k > 3 then z.timeEnd else x.timeEnd,
      if k > 4 then z.saslUsername else x.saslUsername,
      if k > 5 then z.saslSender else x.saslSender,
      if k > 6 then z.saslMethod else x.saslMethod,
      if k > 7 then z.certIssuer else x.certIssuer,
      if k > 8 then z.certSubject else x.certSubject,
      if k > 9 then z.cipherBits else x.cipherBits,
      if k > 10 then z.cipher else x.cipher,
      if k > 11 then z.tlsVersion else x.tlsVersion,
      if k > 12 then z.ip else x.ip,
      if k > 13 then z.reverseDns else x.reverseDns,
      if k > 14 then z.hostname else x.hostname,
      if k > 15 then z.helo else x.helo,
      if k > 16 then z.mtaHostName else x.mtaHostName,
      if k > 17 then z.mtaDaemonName else x.mtaDaemonName)
  }

  ghost predicate SessionDecodedTo(x: Session, y: Session, k: nat)
    requires k <= 18
  {
    Decode(SessionMsg(x), EncGroups(SessionGroups(y)[..k])) == Ok(SessionMsg(MergeSessionTo(x, y, k)))
  }

  lemma DecodeSessionFirst(x: Session, y: Session, k: nat)
    requires |EncGroups(SessionGroups(y))| < TWO_63 && 0 <= k < 3 && SessionDecodedTo(x, y, k)
    ensures SessionDecodedTo(x, y, k + 1)
  {
    hide Decode, EncGroups, ApplyMessage, ApplyLearn, ApplyRpc, OptBytes, OptVarint, OptDouble;
    var m, g := SessionMsg(x), SessionGroups(y);
    var a, b := SessionMsg(MergeSessionTo(x, y, k)), SessionMsg(MergeSessionTo(x, y, k + 1));
    match k
    case 0 => StepVarint(m, g, 0, 1, y.instanceId, a, b);
    case 1 => StepBytes(m, g, 1, 2, y.id, a, b);
    case _ => StepVarint(m, g, 2, 3, y.timeStart, a, b);
  }

  lemma DecodeSessionSecond(x: Session, y: Session, k: nat)
    requires |EncGroups(SessionGroups(y))| < TWO_63 && 3 <= k < 6 && SessionDecodedTo(x, y, k)
    ensures SessionDecodedTo(x, y, k + 1)
  {
    hide Decode, EncGroups, ApplyMessage, ApplyLearn, ApplyRpc, OptBytes, OptVarint, OptDouble;
    var m, g := SessionMsg(x), SessionGroups(y);
    var a, b := SessionMsg(MergeSessionTo(x, y, k)), SessionMsg(MergeSessionTo(x, y, k + 1));
    match k
    case 3 => StepVarint(m, g, 3, 4, y.timeEnd, a, b);
    case 4 => StepBytes(m, g, 4, 5, y.saslUsername, a, b);
    case _ => StepBytes(m, g, 5, 6, y.saslSender, a, b);
  }

  lemma DecodeSessionThird(x: Session, y: Session, k: nat)
    requires |EncGroups(SessionGroups(y))| < TWO_63 && 6 <= k < 9 && SessionDecodedTo(x, y, k)
    ensures SessionDecodedTo(x, y, k + 1)
  {
    hide Decode, EncGroups, ApplyMessage, ApplyLearn, ApplyRpc, OptBytes, OptVarint, OptDouble;
    var m, g := SessionMsg(x), SessionGroups(y);
    var a, b := SessionMsg(MergeSessionTo(x, y, k)), SessionMsg(MergeSessionTo(x, y, k + 1));
    match k
    case 6 => StepBytes(m, g, 6, 7, y.saslMethod, a, b);
    case 7 => StepBytes(m, g, 7, 8, y.certIssuer, a, b);
    case _ => StepBytes(m, g, 8, 9, y.certSubject, a, b);
  }

  lemma DecodeSessionFourth(x: Session, y: Session, k: nat)
    requires |EncGroups(SessionGroups(y))| < TWO_63 && 9 <= k < 12 && SessionDecodedTo(x, y, k)
    ensures SessionDecodedTo(x, y, k + 1)
  {
    hide Decode, EncGroups, ApplyMessage, ApplyLearn, ApplyRpc, OptBytes, OptVarint, OptDouble;
    var m, g := SessionMsg(x), SessionGroups(y);
    var a, b := SessionMsg(MergeSessionTo(x, y, k)), SessionMsg(MergeSessionTo(x, y, k + 1));
    match k
    case 9 => StepVarint(m, g, 9, 10, y.cipherBits, a, b);
    case 10 => StepBytes(m, g, 10, 11, y.cipher, a, b);
    case _ => StepBytes(m, g, 11, 12, y.tlsVersion, a, b);
  }

  lemma DecodeSessionFifth(x: Session, y: Session, k: nat)
    requires |EncGroups(SessionGroups(y))| < TWO_63 && 12 <= k < 15 && SessionDecodedTo(x, y, k)
    ensures SessionDecodedTo(x, y, k + 1)
  {
    hide Decode, EncGroups, ApplyMessage, ApplyLearn, ApplyRpc, OptBytes, OptVarint, OptDouble;
    var m, g := SessionMsg(x), SessionGroups(y);
    var a, b := SessionMsg(MergeSessionTo(x, y, k)), SessionMsg(MergeSessionTo(x, y, k + 1));
    match k
    case 12 => StepBytes(m, g, 12, 13, y.ip, a, b);
    case 13 => StepBytes(m, g, 13, 14, y.reverseDns, a, b);
    case _ => StepBytes(m, g, 14, 15, y.hostname, a, b);
  }

  lemma DecodeSessionLast(x: Session, y: Session, k: nat)
    requires |EncGroups(SessionGroups(y))| < TWO_63 && 15 <= k < 18 && SessionDecodedTo(x, y, k)
    ensures SessionDecodedTo(x, y, k + 1)
  {
    hide Decode, EncGroups, ApplyMessage, ApplyLearn, ApplyRpc, OptBytes, OptVarint, OptDouble;
    var m, g := SessionMsg(x), SessionGroups(y);
    var a, b := SessionMsg(MergeSessionTo(x, y, k)), SessionMsg(MergeSessionTo(x, y, k + 1));
    match k
    case 15 => StepBytes(m, g, 15, 16, y.helo, a, b);
    case 16 => StepBytes(m, g, 16, 17, y.mtaHostName, a, b);
    case _ => StepBytes(m, g, 17, 18, y.mtaDaemonName, a, b);
  }

  lemma {:induction false} DecodeSessionTo(x: Session, y: Session, k: nat)
    requires |EncGroups(SessionGroups(y))| < TWO_63 && k <= 18
    ensures SessionDecodedTo(x, y, k)
    decreases k
  {
    hide Decode, EncGroups;
    if k == 0 {
      Start(SessionMsg(x), SessionGroups(y));
    } else {
      DecodeSessionTo(x, y, k - 1);
      hide SessionDecodedTo;
      match (k - 1) / 3
      case 0 => DecodeSessionFirst(x, y, k - 1);
      case 1 => DecodeSessionSecond(x, y, k - 1);
      case 2 => DecodeSessionThird(x, y, k - 1);
      case 3 => DecodeSessionFourth(x, y, k - 1);
      case 4 => DecodeSessionFifth(x, y, k - 1);
      case _ => DecodeSessionLast(x, y, k - 1);
    }
  }

  lemma DecodeSession(x: Session, y: Session)
    requires |EncGroups(SessionGroups(y))| < TWO_63
    ensures Decode(SessionMsg(x), EncGroups(SessionGroups(y))) == Ok(SessionMsg(MergeSession(x, y)))
  {
    DecodeSessionTo(x, y, 18);
    assert SessionGroups(y)[..18] == SessionGroups(y);
  }

  // ----- Nested messages and repeated fields -----

  lemma {:induction false} PayloadBound(fs: seq<Field>, j: nat)
    requires j < |fs|
    ensures PayloadSize(fs[j]) <= |EncFields(fs)|
    decreases |fs|
  {
    if j < |fs| - 1 {
      PayloadBound(fs[..|fs| - 1], j);
    }
  }

  lemma GroupPayloadBound(g: Groups, k: nat, j: nat)
    requires k < |g| && j < |g[k]|
    ensures PayloadSize(g[k][j]) <= |EncGroups(g)|
  {
    GroupsPrefix(g, k);
    PayloadBound(g[k], j);
  }

  lemma StepSub(m: Msg, g: Groups, k: nat, num: FieldNum, e: Option<Bytes>, before: Msg, after: Msg)
    requires k < |g| && |EncGroups(g)| < TWO_63
    requires Decode(m, EncGroups(g[..k])) == Ok(before)
    requires g[k] == OptSub(num, e) && Expected(KindOf(before), num) == Some(2)
    requires if e.None? then after == before else Apply(before, BytesF(num, e.value)) == Ok(after)
    ensures Decode(m, EncGroups(g[..k + 1])) == Ok(after)
  {
    if e.None? { StepNone(m, g, k, before); } else { StepOne(m, g, k, BytesF(num, e.value), before, after); }
  }

  lemma RepeatedInit(num: FieldNum, parts: seq<Bytes>)
    requires parts != []
    ensures Repeated(num, parts)[..|parts| - 1] == Repeated(num, parts[..|parts| - 1])
  {
  }

  lemma ApplySnoc(m: Msg, fs: seq<Field>, init: seq<Field>, last: Field, before: Msg, after: Msg)
    requires fs != [] && init == fs[..|fs| - 1] && last == fs[|fs| - 1]
    requires Gives(m, init, before) && Knows(KindOf(before), last) && Apply(before, last) == Ok(after)
    ensures Gives(m, fs, after)
  {
    forall i | 0 <= i < |fs| ensures Knows(KindOf(m), fs[i]) {
      assert i < |init| ==> fs[i] == init[i];
    }
  }

  lemma ApplyNothing(m: Msg, fs: seq<Field>)
    requires fs == []
    ensures Gives(m, fs, m)
  {
  }

  lemma {:induction false} ApplyRcpts(m: Message, parts: seq<Bytes>)
    ensures Gives(MessageMsg(m), Repeated(4, parts), MessageMsg(m.(rcpt := m.rcpt + parts)))
    decreases |parts|
  {
    if parts == [] {
      assert m.rcpt + [] == m.rcpt;
    } else {
      var init, last := parts[..|parts| - 1], parts[|parts| - 1];
      ApplyRcpts(m, init);
      RepeatedInit(4, parts);
      assert m.rcpt + parts == m.rcpt + init + [last];
      ApplySnoc(MessageMsg(m), Repeated(4, parts), Repeated(4, init), BytesF(4, last),
                MessageMsg(m.(rcpt := m.rcpt + init)), MessageMsg(m.(rcpt := m.rcpt + parts)));
    }
  }

  lemma {:induction false} ApplyHeaders(m: Message, hs: seq<Header>)
    requires forall i :: 0 <= i < |hs| ==> |EncHeaders(hs)[i]| < TWO_63
    ensures Gives(MessageMsg(m), Repeated(5, EncHeaders(hs)), MessageMsg(m.(headers := m.headers + hs)))
    decreases |hs|
  {
    hide Decode, EncGroups, Gives, ApplyLearn, ApplyRpc, CheckGroups, HeaderGroups;
    var parts := EncHeaders(hs);
    if hs == [] {
      ApplyNothing(MessageMsg(m), Repeated(5, parts));
      assert m.headers + [] == m.headers;
    } else {
      var init, last := hs[..|hs| - 1], hs[|hs| - 1];
      assert parts[..|hs| - 1] == EncHeaders(init);
      assert forall i :: 0 <= i < |init| ==> EncHeaders(init)[i] == parts[i];
      ApplyHeaders(m, init);
      RepeatedInit(5, parts);
      assert parts[|hs| - 1] == EncGroups(HeaderGroups(last));
      DecodeHeader(NEW_HEADER, last);
      assert m.headers + hs == m.headers + init + [last];
      ApplySnoc(MessageMsg(m), Repeated(5, parts), Repeated(5, EncHeaders(init)),
                BytesF(5, parts[|hs| - 1]), MessageMsg(m.(headers := m.headers + init)),
                MessageMsg(m.(headers := m.headers + hs)));
    }
  }

  lemma MergeIntoNewCheck(c: CheckResult)
    ensures MergeCheck(NEW_CHECK, c) == PlusZeroCheck(c)
  {
  }

  lemma {:induction false} ApplyChecks(m: Message, cs: seq<CheckResult>)
    requires forall i :: 0 <= i < |cs| ==> |EncChecks(cs)[i]| < TWO_63
    ensures Gives(MessageMsg(m), Repeated(13, EncChecks(cs)),
                  MessageMsg(m.(checkResults := m.checkResults + PlusZeroChecks(cs))))
    decreases |cs|
  {
    hide Decode, EncGroups, Gives, ApplyLearn, ApplyRpc, CheckGroups, HeaderGroups;
    var parts := EncChecks(cs);
    if cs == [] {
      ApplyNothing(MessageMsg(m), Repeated(13, parts));
      assert m.checkResults + PlusZeroChecks(cs) == m.checkResults;
    } else {
      var init, last := cs[..|cs| - 1], cs[|cs| - 1];
      assert parts[..|cs| - 1] == EncChecks(init);
      assert forall i :: 0 <= i < |init| ==> EncChecks(init)[i] == parts[i];
      ApplyChecks(m, init);
      RepeatedInit(13, parts);
      assert parts[|cs| - 1] == EncGroups(CheckGroups(last));
      DecodeCheck(NEW_CHECK, last);
      MergeIntoNewCheck(last);
      assert m.checkResults + PlusZeroChecks(cs)
          == m.checkResults + PlusZeroChecks(init) + [PlusZeroCheck(last)];
      ApplySnoc(MessageMsg(m), Repeated(13, parts), Repeated(13, EncChecks(init)),
                BytesF(13, parts[|cs| - 1]),
                MessageMsg(m.(checkResults := m.checkResults + PlusZeroChecks(init))),
                MessageMsg(m.(checkResults := m.checkResults + PlusZeroChecks(cs))));
    }
  }

  /** x with the first k fields of y merged in. */
  function MergeMessageTo(x: Message, y: Message, k: nat): Message {
    var z := MergeMessage(x, y);
    Message(
      if k > 0 then z.session else x.session,
      if k > 1 then z.id else x.id,
      if k > 2 then z.from else x.from,
      if k > 3 then z.rcpt else x.rcpt,
      if k > 4 then z.headers else x.headers,
      if k > 5 then z.body else x.body,
      if k > 6 then z.verdict else x.verdict,
      if k > 7 then z.verdictMsg else x.verdictMsg,
      if k > 8 then z.rejectScore else x.rejectScore,
      if k > 9 then z.rejectScoreThreshold else x.rejectScoreThreshold,
      if k > 10 then z.tempfailScore else x.tempfailScore,
      if k > 11 then z.tempfailScoreThreshold else x.tempfailScoreThreshold,
      if k > 12 then z.checkResults else x.checkResults)
  }

  ghost predicate MessageDecodedTo(x: Message, y: Message, k: nat)
    requires k <= 13
  {
    Decode(MessageMsg(x), EncGroups(MessageGroups(y)[..k])) == Ok(MessageMsg(MergeMessageTo(x, y, k)))
  }

  lemma DecodeMessageSession(x: Message, y: Message)
    requires |EncGroups(MessageGroups(y))| < TWO_63 && MessageDecodedTo(x, y, 0)
    ensures MessageDecodedTo(x, y, 1)
  {
    hide Decode, EncGroups;
    var m, g, k := MessageMsg(x), MessageGroups(y), 0;
    var a, b := MessageMsg(MergeMessageTo(x, y, k)), MessageMsg(MergeMessageTo(x, y, k + 1));
    if y.session.Some? {
      assert g[0][0] == BytesF(1, EncGroups(SessionGroups(y.session.value)));
      GroupPayloadBound(g, 0, 0);
      DecodeSession(Or(x.session, NEW_SESSION), y.session.value);
    }
    StepSub(m, g, 0, 1, EncSession(y.session), a, b);
  }

  lemma DecodeMessageRepeated(x: Message, y: Message, k: nat)
    requires |EncGroups(MessageGroups(y))| < TWO_63 && k in {3, 4, 12} && MessageDecodedTo(x, y, k)
    ensures MessageDecodedTo(x, y, k + 1)
  {
    hide Decode, EncGroups, Gives;
    var m, g := MessageMsg(x), MessageGroups(y);
    var a, b := MessageMsg(MergeMessageTo(x, y, k)), MessageMsg(MergeMessageTo(x, y, k + 1));
    var c := MergeMessageTo(x, y, k);
    forall j | 0 <= j < |g[k]| ensures PayloadSize(g[k][j]) < TWO_63 { GroupPayloadBound(g, k, j); }
    if k == 3 {
      ApplyRcpts(c, y.rcpt);
    } else if k == 4 {
      assert forall i :: 0 <= i < |y.headers| ==> |EncHeaders(y.headers)[i]| == PayloadSize(g[4][i]);
      ApplyHeaders(c, y.headers);
    } else {
      assert forall i :: 0 <= i < |y.checkResults| ==> |EncChecks(y.checkResults)[i]| == PayloadSize(g[12][i]);
      ApplyChecks(c, y.checkResults);
    }
    Step(m, g, k, a, b);
  }

  lemma DecodeMessageFirst(x: Message, y: Message, k: nat)
    requires |EncGroups(MessageGroups(y))| < TWO_63 && k in {1, 2} && MessageDecodedTo(x, y, k)
    ensures MessageDecodedTo(x, y, k + 1)
  {
    hide Decode, EncGroups, ApplyLearn, ApplyRpc;
    var m, g := MessageMsg(x), MessageGroups(y);
    var a, b := MessageMsg(MergeMessageTo(x, y, k)), MessageMsg(MergeMessageTo(x, y, k + 1));
    match k
    case 1 => StepBytes(m, g, 1, 2, y.id, a, b);
    case _ => StepBytes(m, g, 2, 3, y.from, a, b);
  }

  lemma DecodeMessageBody(x: Message, y: Message)
    requires |EncGroups(MessageGroups(y))| < TWO_63 && MessageDecodedTo(x, y, 5)
    ensures MessageDecodedTo(x, y, 6)
  {
    hide Decode, EncGroups, ApplyLearn, ApplyRpc;
    var a, b := MessageMsg(MergeMessageTo(x, y, 5)), MessageMsg(MergeMessageTo(x, y, 6));
    StepBytes(MessageMsg(x), MessageGroups(y), 5, 6, y.body, a, b);
  }

  lemma DecodeMessageVerdict(x: Message, y: Message, k: nat)
    requires |EncGroups(MessageGroups(y))| < TWO_63 && k in {6, 7} && MessageDecodedTo(x, y, k)
    ensures MessageDecodedTo(x, y, k + 1)
  {
    hide Decode, EncGroups, ApplyLearn, ApplyRpc;
    var m, g := MessageMsg(x), MessageGroups(y);
    var a, b := MessageMsg(MergeMessageTo(x, y, k)), MessageMsg(MergeMessageTo(x, y, k + 1));
    match k
    case 6 => StepVarint(m, g, 6, 7, FromInt32(y.verdict), a, b);
    case _ => StepBytes(m, g, 7, 8, y.verdictMsg, a, b);
  }

  lemma DecodeMessageLast(x: Message, y: Message, k: nat)
    requires |EncGroups(MessageGroups(y))| < TWO_63 && k in {8, 9, 10, 11} && MessageDecodedTo(x, y, k)
    ensures MessageDecodedTo(x, y, k + 1)
  {
    hide Decode, EncGroups;
    var m, g := MessageMsg(x), MessageGroups(y);
    var a, b := MessageMsg(MergeMessageTo(x, y, k)), MessageMsg(MergeMessageTo(x, y, k + 1));
    match k
    case 8 => StepDouble(m, g, 8, 9, y.rejectScore, a, b);
    case 9 => StepDouble(m, g, 9, 10, y.rejectScoreThreshold, a, b);
    case 10 => StepDouble(m, g, 10, 11, y.tempfailScore, a, b);
    case _ => StepDouble(m, g, 11, 12, y.tempfailScoreThreshold, a, b);
  }

  lemma {:induction false} DecodeMessageTo(x: Message, y: Message, k: nat)
    requires |EncGroups(MessageGroups(y))| < TWO_63 && k <= 13
    ensures MessageDecodedTo(x, y, k)
    decreases k
  {
    hide Decode, EncGroups;
    if k == 0 {
      Start(MessageMsg(x), MessageGroups(y));
    } else {
      var j := k - 1;
      DecodeMessageTo(x, y, j);
      hide MessageDecodedTo;
      if j == 0 { DecodeMessageSession(x, y); }
      else if j in {3, 4, 12} { DecodeMessageRepeated(x, y, j); }
      else if j <= 2 { DecodeMessageFirst(x, y, j); }
      else if j == 5 { DecodeMessageBody(x, y); }
      else if j <= 7 { DecodeMessageVerdict(x, y, j); }
      else { DecodeMessageLast(x, y, j); }
    }
  }

  lemma DecodeMessage(x: Message, y: Message)
    requires |EncGroups(MessageGroups(y))| < TWO_63
    ensures Decode(MessageMsg(x), EncGroups(MessageGroups(y))) == Ok(MessageMsg(MergeMessage(x, y)))
  {
    DecodeMessageTo(x, y, 13);
    assert MessageGroups(y)[..13] == MessageGroups(y);
  }

  lemma DecodeLearnId(x: LearnId, y: LearnId)
    requires |EncGroups(LearnIdGroups(y))| < TWO_63
    ensures Decode(LearnIdMsg(x), EncGroups(LearnIdGroups(y))) == Ok(LearnIdMsg(MergeLearnId(x, y)))
  {
    hide Decode, EncGroups;
    var m, g := LearnIdMsg(x), LearnIdGroups(y);
    Start(m, g);
    var a0 := x.(isSpam := x.isSpam || y.isSpam);
    StepVarint(m, g, 0, 1, BoolBit(y.isSpam), m, LearnIdMsg(a0));
    var a1 := a0.(messageId := LastBytes(x.messageId, y.messageId));
    StepBytes(m, g, 1, 2, y.messageId, LearnIdMsg(a0), LearnIdMsg(a1));
    var a2 := a1.(host := LastBytes(x.host, y.host));
    StepBytes(m, g, 2, 17, y.host, LearnIdMsg(a1), LearnIdMsg(a2));
    var a3 := a2.(reporter := LastBytes(x.reporter, y.reporter));
    StepBytes(m, g, 3, 18, y.reporter, LearnIdMsg(a2), LearnIdMsg(a3));
    StepBytes(m, g, 4, 19, y.reason, LearnIdMsg(a3), LearnIdMsg(MergeLearnId(x, y)));
    assert g[..5] == g;
  }

  /** x with the first k fields of y merged in. */
  function MergeLearnTo(x: Learn, y: Learn, k: nat): Learn {
    var z := MergeLearn(x, y);
    Learn(
      if k > 0 then z.isSpam else x.isSpam,
      if k > 1 then z.message else x.message,
      if k > 2 then z.host else x.host,
      if k > 3 then z.reporter else x.reporter,
      if k > 4 then z.reason else x.reason)
  }

  ghost predicate LearnDecodedTo(x: Learn, y: Learn, k: nat)
    requires k <= 5
  {
    Decode(LearnMsg(x), EncGroups(LearnGroups(y)[..k])) == Ok(LearnMsg(MergeLearnTo(x, y, k)))
  }

  lemma DecodeLearnMessage(x: Learn, y: Learn)
    requires |EncGroups(LearnGroups(y))| < TWO_63 && LearnDecodedTo(x, y, 1)
    ensures LearnDecodedTo(x, y, 2)
  {
    hide Decode, EncGroups, MergeMessage, MessageGroups, ApplyMessage, ApplyRpc;
    var m, g := LearnMsg(x), LearnGroups(y);
    if y.message.Some? {
      assert g[1][0] == BytesF(2, EncGroups(MessageGroups(y.message.value)));
      GroupPayloadBound(g, 1, 0);
      DecodeMessage(Or(x.message, NEW_MESSAGE), y.message.value);
    }
    StepSub(m, g, 1, 2, EncMessage(y.message), LearnMsg(MergeLearnTo(x, y, 1)), LearnMsg(MergeLearnTo(x, y, 2)));
  }

  lemma DecodeLearnRest(x: Learn, y: Learn, k: nat)
    requires |EncGroups(LearnGroups(y))| < TWO_63 && k in {0, 2, 3, 4} && LearnDecodedTo(x, y, k)
    ensures LearnDecodedTo(x, y, k + 1)
  {
    hide Decode, EncGroups, MergeMessage, MessageGroups, ApplyMessage, ApplyRpc;
    var m, g := LearnMsg(x), LearnGroups(y);
    var a, b := LearnMsg(MergeLearnTo(x, y, k)), LearnMsg(MergeLearnTo(x, y, k + 1));
    match k
    case 0 => StepVarint(m, g, 0, 1, BoolBit(y.isSpam), a, b);
    case 2 => StepBytes(m, g, 2, 17, y.host, a, b);
    case 3 => StepBytes(m, g, 3, 18, y.reporter, a, b);
    case _ => StepBytes(m, g, 4, 19, y.reason, a, b);
  }

  lemma DecodeLearn(x: Learn, y: Learn)
    requires |EncGroups(LearnGroups(y))| < TWO_63
    ensures Decode(LearnMsg(x), EncGroups(LearnGroups(y))) == Ok(LearnMsg(MergeLearn(x, y)))
  {
    hide Decode, EncGroups, MergeMessage, MessageGroups;
    Start(LearnMsg(x), LearnGroups(y));
    DecodeLearnRest(x, y, 0);
    DecodeLearnMessage(x, y);
    DecodeLearnRest(x, y, 2);
    DecodeLearnRest(x, y, 3);
    DecodeLearnRest(x, y, 4);
    assert LearnGroups(y)[..5] == LearnGroups(y);
  }

  lemma DecodeRpc(x: Rpc, y: Rpc)
    requires |EncGroups(RpcGroups(y))| < TWO_63
    ensures Decode(RpcMsg(x), EncGroups(RpcGroups(y))) == Ok(RpcMsg(MergeRpc(x, y)))
  {
    hide Decode, EncGroups;
    var m, g, z := RpcMsg(x), RpcGroups(y), MergeRpc(x, y);
    Start(m, g);
    var a0 := x.(name := z.name);
    StepBytes(m, g, 0, 1, y.name, m, RpcMsg(a0));
    var a1 := a0.(learn := z.learn);
    if y.learn.Some? {
      assert g[1][0] == BytesF(1024, EncGroups(LearnGroups(y.learn.value)));
      GroupPayloadBound(g, 1, 0);
      DecodeLearn(Or(x.learn, NEW_LEARN), y.learn.value);
    }
    StepSub(m, g, 1, 1024, EncLearn(y.learn), RpcMsg(a0), RpcMsg(a1));
    if y.learnId.Some? {
      assert g[2][0] == BytesF(1025, EncGroups(LearnIdGroups(y.learnId.value)));
      GroupPayloadBound(g, 2, 0);
      DecodeLearnId(Or(x.learnId, NEW_LEARN_ID), y.learnId.value);
    }
    StepSub(m, g, 2, 1025, EncLearnId(y.learnId), RpcMsg(a1), RpcMsg(z));
    assert g[..3] == g;
  }

  // ----- The main results -----

  /** Decoding the encoding of y into x gives the merge of x and y. */
  lemma DecodeMerges(x: Msg, y: Msg)
    requires KindOf(x) == KindOf(y) && |Encode(y)| < TWO_63
    ensures Decode(x, Encode(y)) == Ok(Merge(x, y))
  {
    hide Decode, EncGroups;
    match y
    case HeaderMsg(h) => DecodeHeader(x.header, h);
    case CheckMsg(c) => DecodeCheck(x.check, c);
    case SessionMsg(s) => DecodeSession(x.session, s);
    case MessageMsg(m) => DecodeMessage(x.message, m);
    case LearnMsg(l) => DecodeLearn(x.learn, l);
    case LearnIdMsg(l) => DecodeLearnId(x.learnId, l);
    case RpcMsg(r) => DecodeRpc(x.rpc, r);
  }

  lemma MergeIntoNewMessage(y: Message)
    ensures MergeMessage(NEW_MESSAGE, y) == PlusZeroMessage(y)
  {
  }

  lemma MergeIntoFresh(y: Msg)
    ensures Merge(Fresh(KindOf(y)), y) == Normalize(y)
  {
    match y
    case MessageMsg(m) => MergeIntoNewMessage(m);
    case LearnMsg(l) =>
      if l.message.Some? { MergeIntoNewMessage(l.message.value); }
    case RpcMsg(r) =>
      if r.learn.Some? && r.learn.value.message.Some? { MergeIntoNewMessage(r.learn.value.message.value); }
    case _ =>
  }

  /** The round trip: what was marshalled is unmarshalled into a fresh value as
      it was, up to the sign of zero. */
  lemma RoundTrip(m: Msg)
    requires |Encode(m)| < TWO_63
    ensures Decode(Fresh(KindOf(m)), Encode(m)) == Ok(Normalize(m))
  {
    DecodeMerges(Fresh(KindOf(m)), m);
    MergeIntoFresh(m);
  }

  lemma ChecksNormalized(c: CheckResult)
    ensures CheckGroups(PlusZeroCheck(c)) == CheckGroups(c)
  {
  }

  lemma MessageNormalized(m: Message)
    ensures MessageGroups(PlusZeroMessage(m)) == MessageGroups(m)
  {
    hide EncGroups, CheckGroups;
    var cs := m.checkResults;
    forall i | 0 <= i < |cs| ensures CheckGroups(PlusZeroChecks(cs)[i]) == CheckGroups(cs[i]) {
      ChecksNormalized(cs[i]);
    }
    assert EncChecks(PlusZeroChecks(cs)) == EncChecks(cs);
  }

  lemma LearnNormalized(l: Learn)
    ensures LearnGroups(PlusZeroLearn(l)) == LearnGroups(l)
  {
    hide EncGroups;
    if l.message.Some? {
      MessageNormalized(l.message.value);
    }
  }

  lemma GroupsNormalized(m: Msg)
    ensures GroupsOf(Normalize(m)) == GroupsOf(m)
  {
    hide EncGroups;
    match m
    case CheckMsg(c) => ChecksNormalized(c);
    case MessageMsg(x) => MessageNormalized(x);
    case LearnMsg(l) => LearnNormalized(l);
    case RpcMsg(r) =>
      if r.learn.Some? { LearnNormalized(r.learn.value); }
    case _ =>
  }

  /** Two messages have one encoding exactly when they differ at most in the
      sign of zeros. */
  lemma EncodeInjective(x: Msg, y: Msg)
    requires KindOf(x) == KindOf(y) && |Encode(x)| < TWO_63 && |Encode(y)| < TWO_63
    ensures Encode(x) == Encode(y) <==> Normalize(x) == Normalize(y)
  {
    hide Decode, EncGroups, GroupsOf, Normalize;
    RoundTrip(x);
    RoundTrip(y);
    GroupsNormalized(x);
    GroupsNormalized(y);
  }

  /** Concatenated encodings decode to the merge of the messages. */
  lemma ConcatenationMerges(x: Msg, y: Msg)
    requires KindOf(x) == KindOf(y) && |Encode(x)| < TWO_63 && |Encode(y)| < TWO_63
    ensures Decode(Fresh(KindOf(x)), Encode(x) + Encode(y)) == Ok(Merge(Normalize(x), y))
  {
    RoundTrip(x);
    DecodeConcat(Fresh(KindOf(x)), Encode(x), Encode(y));
    DecodeMerges(Normalize(x), y);
  }
}
