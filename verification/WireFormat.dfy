/** Which bytes carry which field of which message, by their literal tags
    (cluegetter.pb.go, lines 238-1006, 1021-2778; Protocol Buffers Encoding, section
    "Message Structure"). */
module WireFormat {
  import opened Wire
  import opened Schema
  import opened CodecLaws

  // ----- Tags -----

  ghost predicate IsTag(tag: Bytes, num: FieldNum, wireType: nat) {
    var t := num * 8 + wireType;
    tag == if t < 128 then [t] else [t % 128 + 128, t / 128]
  }

  lemma TagIs(tag: Bytes, num: FieldNum, wireType: nat)
    requires IsTag(tag, num, wireType) && num * 8 + wireType < 128 * 128
    ensures tag == Tag(num, wireType)
  {
    var t := num * 8 + wireType;
    if t >= 128 {
      assert EncVarint(t / 128) == [t / 128];
    }
  }

  /** These bytes are the tag of this field, which the message's type knows. */
  ghost predicate Tags(tag: Bytes, m: Msg, f: Field) {
    IsTag(tag, f.num, WireOf(f)) && Knows(KindOf(m), f)
  }

  // ----- What decoding one field changes -----

  /** A tag and a delimited payload, a varint or eight bytes, decode to this. */
  ghost predicate ReadsText(m: Msg, tag: Bytes, s: Bytes, r: Result<Msg>) {
    Decode(m, tag + EncVarint(|s|) + s) == r
  }

  ghost predicate ReadsNumber(m: Msg, tag: Bytes, v: uint64, r: Result<Msg>) {
    Decode(m, tag + EncVarint(v)) == r
  }

  ghost predicate ReadsDouble(m: Msg, tag: Bytes, v: uint64, r: Result<Msg>) {
    Decode(m, tag + LittleEndian(v, 8)) == r
  }

  lemma Text(m: Msg, tag: Bytes, num: FieldNum, s: Bytes)
    requires Tags(tag, m, BytesF(num, s)) && |s| < TWO_63
    ensures ReadsText(m, tag, s, Apply(m, BytesF(num, s)))
  {
    hide Decode, Apply;
    KnownNumber(KindOf(m), BytesF(num, s));
    TagIs(tag, num, 2);
    DecodeField(m, BytesF(num, s));
  }

  lemma Number(m: Msg, tag: Bytes, num: FieldNum, v: uint64)
    requires Tags(tag, m, VarintF(num, v))
    ensures ReadsNumber(m, tag, v, Apply(m, VarintF(num, v)))
  {
    hide Decode, Apply;
    KnownNumber(KindOf(m), VarintF(num, v));
    TagIs(tag, num, 0);
    DecodeField(m, VarintF(num, v));
  }

  lemma Double(m: Msg, tag: Bytes, num: FieldNum, v: uint64)
    requires Tags(tag, m, Fixed64F(num, v))
    ensures ReadsDouble(m, tag, v, Apply(m, Fixed64F(num, v)))
  {
    hide Decode, Apply;
    KnownNumber(KindOf(m), Fixed64F(num, v));
    TagIs(tag, num, 1);
    DecodeField(m, Fixed64F(num, v));
  }

  // ----- One field of each message -----

  lemma HeaderReads(m: Header, s: Bytes)
    requires |s| < TWO_63
    ensures ReadsText(HeaderMsg(m), [0x0a], s, Ok(HeaderMsg(m.(key := s))))
    ensures ReadsText(HeaderMsg(m), [0x12], s, Ok(HeaderMsg(m.(value := s))))
  {
    hide Decode, ReadsText, ReadsNumber, ReadsDouble;
    Text(HeaderMsg(m), [0x0a], 1, s);
    Text(HeaderMsg(m), [0x12], 2, s);
  }

  lemma CheckResultReadsModule(m: CheckResult, s: Bytes, v: uint64)
    requires |s| < TWO_63
    ensures ReadsText(CheckMsg(m), [0x0a], s, Ok(CheckMsg(m.(messageId := s))))
    ensures ReadsText(CheckMsg(m), [0x12], s, Ok(CheckMsg(m.(moduleName := s))))
    ensures ReadsNumber(CheckMsg(m), [0x18], v, Ok(CheckMsg(m.(verdict := ToInt32(v)))))
    ensures ReadsDouble(CheckMsg(m), [0x21], v, Ok(CheckMsg(m.(score := v))))
  {
    hide Decode, ReadsText, ReadsNumber, ReadsDouble;
    Text(CheckMsg(m), [0x0a], 1, s);
    Text(CheckMsg(m), [0x12], 2, s);
    Number(CheckMsg(m), [0x18], 3, v);
    Double(CheckMsg(m), [0x21], 4, v);
  }

  lemma CheckResultReadsScores(m: CheckResult, s: Bytes, v: uint64)
    requires |s| < TWO_63
    ensures ReadsDouble(CheckMsg(m), [0x29], v, Ok(CheckMsg(m.(weightedScore := v))))
    ensures ReadsDouble(CheckMsg(m), [0x31], v, Ok(CheckMsg(m.(duration := v))))
    ensures ReadsText(CheckMsg(m), [0x3a], s, Ok(CheckMsg(m.(determinants := s))))
  {
    hide Decode, ReadsText, ReadsNumber, ReadsDouble;
    Double(CheckMsg(m), [0x29], 5, v);
    Double(CheckMsg(m), [0x31], 6, v);
    Text(CheckMsg(m), [0x3a], 7, s);
  }

  lemma SessionReadsStart(m: Session, s: Bytes, v: uint64)
    requires |s| < TWO_63
    ensures ReadsNumber(SessionMsg(m), [0x08], v, Ok(SessionMsg(m.(instanceId := v))))
    ensures ReadsText(SessionMsg(m), [0x12], s, Ok(SessionMsg(m.(id := s))))
    ensures ReadsNumber(SessionMsg(m), [0x18], v, Ok(SessionMsg(m.(timeStart := v))))
    ensures ReadsNumber(SessionMsg(m), [0x20], v, Ok(SessionMsg(m.(timeEnd := v))))
  {
    hide Decode, ReadsText, ReadsNumber, ReadsDouble;
    Number(SessionMsg(m), [0x08], 1, v);
    Text(SessionMsg(m), [0x12], 2, s);
    Number(SessionMsg(m), [0x18], 3, v);
    Number(SessionMsg(m), [0x20], 4, v);
  }

  lemma SessionReadsSasl(m: Session, s: Bytes)
    requires |s| < TWO_63
    ensures ReadsText(SessionMsg(m), [0x2a], s, Ok(SessionMsg(m.(saslUsername := s))))
    ensures ReadsText(SessionMsg(m), [0x32], s, Ok(SessionMsg(m.(saslSender := s))))
    ensures ReadsText(SessionMsg(m), [0x3a], s, Ok(SessionMsg(m.(saslMethod := s))))
    ensures ReadsText(SessionMsg(m), [0x42], s, Ok(SessionMsg(m.(certIssuer := s))))
  {
    hide Decode, ReadsText, ReadsNumber, ReadsDouble;
    Text(SessionMsg(m), [0x2a], 5, s);
    Text(SessionMsg(m), [0x32], 6, s);
    Text(SessionMsg(m), [0x3a], 7, s);
    Text(SessionMsg(m), [0x42], 8, s);
  }

  lemma SessionReadsCipher(m: Session, s: Bytes, v: uint64)
    requires |s| < TWO_63
    ensures ReadsText(SessionMsg(m), [0x4a], s, Ok(SessionMsg(m.(certSubject := s))))
    ensures ReadsNumber(SessionMsg(m), [0x50], v, Ok(SessionMsg(m.(cipherBits := v % 0x1_0000_0000))))
    ensures ReadsText(SessionMsg(m), [0x5a], s, Ok(SessionMsg(m.(cipher := s))))
  {
    hide Decode, ReadsText, ReadsNumber, ReadsDouble;
    Text(SessionMsg(m), [0x4a], 9, s);
    Number(SessionMsg(m), [0x50], 10, v);
    Text(SessionMsg(m), [0x5a], 11, s);
  }

  lemma SessionReadsPeer(m: Session, s: Bytes)
    requires |s| < TWO_63
    ensures ReadsText(SessionMsg(m), [0x62], s, Ok(SessionMsg(m.(tlsVersion := s))))
    ensures ReadsText(SessionMsg(m), [0x6a], s, Ok(SessionMsg(m.(ip := s))))
    ensures ReadsText(SessionMsg(m), [0x72], s, Ok(SessionMsg(m.(reverseDns := s))))
  {
    hide Decode, ReadsText, ReadsNumber, ReadsDouble;
    Text(SessionMsg(m), [0x62], 12, s);
    Text(SessionMsg(m), [0x6a], 13, s);
    Text(SessionMsg(m), [0x72], 14, s);
  }

  lemma SessionReadsHost(m: Session, s: Bytes)
    requires |s| < TWO_63
    ensures ReadsText(SessionMsg(m), [0x7a], s, Ok(SessionMsg(m.(hostname := s))))
    ensures ReadsText(SessionMsg(m), [0x82, 0x01], s, Ok(SessionMsg(m.(helo := s))))
  {
    hide Decode, ReadsText, ReadsNumber, ReadsDouble;
    Text(SessionMsg(m), [0x7a], 15, s);
    Text(SessionMsg(m), [0x82, 0x01], 16, s);
  }

  lemma SessionReadsMta(m: Session, s: Bytes)
    requires |s| < TWO_63
    ensures ReadsText(SessionMsg(m), [0x8a, 0x01], s, Ok(SessionMsg(m.(mtaHostName := s))))
    ensures ReadsText(SessionMsg(m), [0x92, 0x01], s, Ok(SessionMsg(m.(mtaDaemonName := s))))
  {
    hide Decode, ReadsText, ReadsNumber, ReadsDouble;
    Text(SessionMsg(m), [0x8a, 0x01], 17, s);
    Text(SessionMsg(m), [0x92, 0x01], 18, s);
  }

  lemma LearnIdReads(m: LearnId, s: Bytes, v: uint64)
    requires |s| < TWO_63
    ensures ReadsNumber(LearnIdMsg(m), [0x08], v, Ok(LearnIdMsg(m.(isSpam := v != 0))))
    ensures ReadsText(LearnIdMsg(m), [0x12], s, Ok(LearnIdMsg(m.(messageId := s))))
    ensures ReadsText(LearnIdMsg(m), [0x8a, 0x01], s, Ok(LearnIdMsg(m.(host := s))))
    ensures ReadsText(LearnIdMsg(m), [0x92, 0x01], s, Ok(LearnIdMsg(m.(reporter := s))))
    ensures ReadsText(LearnIdMsg(m), [0x9a, 0x01], s, Ok(LearnIdMsg(m.(reason := s))))
  {
    hide Decode, ReadsText, ReadsNumber, ReadsDouble;
    Number(LearnIdMsg(m), [0x08], 1, v);
    Text(LearnIdMsg(m), [0x12], 2, s);
    Text(LearnIdMsg(m), [0x8a, 0x01], 17, s);
    Text(LearnIdMsg(m), [0x92, 0x01], 18, s);
    Text(LearnIdMsg(m), [0x9a, 0x01], 19, s);
  }

  lemma MessageReadsEnvelope(m: Message, s: Bytes)
    requires |s| < TWO_63
    ensures var r := Decode(SessionMsg(if m.session.None? then NEW_SESSION else m.session.value), s);
            ReadsText(MessageMsg(m), [0x0a], s,
                      if r.Ok? then Ok(MessageMsg(m.(session := Some(r.value.session)))) else Err(r.error))
    ensures ReadsText(MessageMsg(m), [0x12], s, Ok(MessageMsg(m.(id := s))))
    ensures ReadsText(MessageMsg(m), [0x1a], s, Ok(MessageMsg(m.(from := s))))
  {
    hide Decode, ReadsText, ReadsNumber, ReadsDouble;
    Text(MessageMsg(m), [0x0a], 1, s);
    Text(MessageMsg(m), [0x12], 2, s);
    Text(MessageMsg(m), [0x1a], 3, s);
  }

  lemma MessageReadsLists(m: Message, s: Bytes)
    requires |s| < TWO_63
    ensures ReadsText(MessageMsg(m), [0x22], s, Ok(MessageMsg(m.(rcpt := m.rcpt + [s]))))
    ensures var r := Decode(HeaderMsg(NEW_HEADER), s);
            ReadsText(MessageMsg(m), [0x2a], s,
                      if r.Ok? then Ok(MessageMsg(m.(headers := m.headers + [r.value.header]))) else Err(r.error))
  {
    hide Decode, ReadsText, ReadsNumber, ReadsDouble;
    Text(MessageMsg(m), [0x22], 4, s);
    Text(MessageMsg(m), [0x2a], 5, s);
  }

  lemma MessageReadsVerdict(m: Message, s: Bytes, v: uint64)
    requires |s| < TWO_63
    ensures ReadsText(MessageMsg(m), [0x32], s, Ok(MessageMsg(m.(body := s))))
    ensures ReadsNumber(MessageMsg(m), [0x38], v, Ok(MessageMsg(m.(verdict := ToInt32(v)))))
    ensures ReadsText(MessageMsg(m), [0x42], s, Ok(MessageMsg(m.(verdictMsg := s))))
  {
    hide Decode, ReadsText, ReadsNumber, ReadsDouble;
    Text(MessageMsg(m), [0x32], 6, s);
    Number(MessageMsg(m), [0x38], 7, v);
    Text(MessageMsg(m), [0x42], 8, s);
  }

  lemma MessageReadsReject(m: Message, v: uint64)
    ensures ReadsDouble(MessageMsg(m), [0x49], v, Ok(MessageMsg(m.(rejectScore := v))))
    ensures ReadsDouble(MessageMsg(m), [0x51], v, Ok(MessageMsg(m.(rejectScoreThreshold := v))))
  {
    hide Decode, ReadsText, ReadsNumber, ReadsDouble;
    Double(MessageMsg(m), [0x49], 9, v);
    Double(MessageMsg(m), [0x51], 10, v);
  }

  lemma MessageReadsTempfail(m: Message, v: uint64)
    ensures ReadsDouble(MessageMsg(m), [0x59], v, Ok(MessageMsg(m.(tempfailScore := v))))
    ensures ReadsDouble(MessageMsg(m), [0x61], v, Ok(MessageMsg(m.(tempfailScoreThreshold := v))))
  {
    hide Decode, ReadsText, ReadsNumber, ReadsDouble;
    Double(MessageMsg(m), [0x59], 11, v);
    Double(MessageMsg(m), [0x61], 12, v);
  }

  lemma MessageReadsResults(m: Message, s: Bytes)
    requires |s| < TWO_63
    ensures var r := Decode(CheckMsg(NEW_CHECK), s);
            ReadsText(MessageMsg(m), [0x6a], s,
                      if r.Ok? then Ok(MessageMsg(m.(checkResults := m.checkResults + [r.value.check])))
                      else Err(r.error))
  {
    hide Decode, ReadsText, ReadsNumber, ReadsDouble;
    Text(MessageMsg(m), [0x6a], 13, s);
  }

  lemma LearnReadsMessage(m: Learn, s: Bytes, v: uint64)
    requires |s| < TWO_63
    ensures ReadsNumber(LearnMsg(m), [0x08], v, Ok(LearnMsg(m.(isSpam := v != 0))))
    ensures var r := Decode(MessageMsg(if m.message.None? then NEW_MESSAGE else m.message.value), s);
            ReadsText(LearnMsg(m), [0x12], s,
                      if r.Ok? then Ok(LearnMsg(m.(message := Some(r.value.message)))) else Err(r.error))
  {
    hide Decode, ReadsText, ReadsNumber, ReadsDouble;
    Number(LearnMsg(m), [0x08], 1, v);
    Text(LearnMsg(m), [0x12], 2, s);
  }

  lemma LearnReadsTexts(m: Learn, s: Bytes)
    requires |s| < TWO_63
    ensures ReadsText(LearnMsg(m), [0x8a, 0x01], s, Ok(LearnMsg(m.(host := s))))
    ensures ReadsText(LearnMsg(m), [0x92, 0x01], s, Ok(LearnMsg(m.(reporter := s))))
    ensures ReadsText(LearnMsg(m), [0x9a, 0x01], s, Ok(LearnMsg(m.(reason := s))))
  {
    hide Decode, ReadsText, ReadsNumber, ReadsDouble;
    Text(LearnMsg(m), [0x8a, 0x01], 17, s);
    Text(LearnMsg(m), [0x92, 0x01], 18, s);
    Text(LearnMsg(m), [0x9a, 0x01], 19, s);
  }

  lemma RpcReadsLearn(m: Rpc, s: Bytes)
    requires |s| < TWO_63
    ensures ReadsText(RpcMsg(m), [0x0a], s, Ok(RpcMsg(m.(name := s))))
    ensures var r := Decode(LearnMsg(if m.learn.None? then NEW_LEARN else m.learn.value), s);
            ReadsText(RpcMsg(m), [0x82, 0x40], s,
                      if r.Ok? then Ok(RpcMsg(m.(learn := Some(r.value.learn)))) else Err(r.error))
  {
    hide Decode, ReadsText, ReadsNumber, ReadsDouble;
    Text(RpcMsg(m), [0x0a], 1, s);
    Text(RpcMsg(m), [0x82, 0x40], 1024, s);
  }

  lemma RpcReadsLearnId(m: Rpc, s: Bytes)
    requires |s| < TWO_63
    ensures var r := Decode(LearnIdMsg(if m.learnId.None? then NEW_LEARN_ID else m.learnId.value), s);
            ReadsText(RpcMsg(m), [0x8a, 0x40], s,
                      if r.Ok? then Ok(RpcMsg(m.(learnId := Some(r.value.learnId)))) else Err(r.error))
  {
    hide Decode, ReadsText, ReadsNumber, ReadsDouble;
    Text(RpcMsg(m), [0x8a, 0x40], 1025, s);
  }

  // ----- What encoding writes -----

  function Concat(parts: seq<Bytes>): Bytes {
    if parts == [] then [] else Concat(parts[..|parts| - 1]) + parts[|parts| - 1]
  }

  /** A field without a value is not written. */
  function TextPart(tag: Bytes, s: Bytes): Bytes {
    if s == [] then [] else tag + EncVarint(|s|) + s
  }

  function NumberPart(tag: Bytes, v: uint64): Bytes {
    if v == 0 then [] else tag + EncVarint(v)
  }

  /** Nor are 0.0 and -0.0. */
  function DoublePart(tag: Bytes, v: uint64): Bytes {
    if v == 0 || v == 0x8000_0000_0000_0000 then [] else tag + LittleEndian(v, 8)
  }

  /** What is repeated or nested is written even when it is empty. */
  function ListPart(tag: Bytes, parts: seq<Bytes>): Bytes {
    if parts == [] then []
    else
      var last := parts[|parts| - 1];
      ListPart(tag, parts[..|parts| - 1]) + (tag + EncVarint(|last|) + last)
  }

  ghost function Encoded<T>(xs: seq<T>, f: T -> Msg): (r: seq<Bytes>)
    ensures |r| == |xs| && forall i :: 0 <= i < |xs| ==> r[i] == Encode(f(xs[i]))
  {
    seq(|xs|, i requires 0 <= i < |xs| => Encode(f(xs[i])))
  }

  ghost function HeaderParts(m: Header): (parts: seq<Bytes>) {
    [TextPart([0x0a], m.key), TextPart([0x12], m.value)]
  }

  ghost function CheckResultParts(m: CheckResult): (parts: seq<Bytes>) {
    [TextPart([0x0a], m.messageId), TextPart([0x12], m.moduleName),
     NumberPart([0x18], if m.verdict < 0 then m.verdict + 0x1_0000_0000_0000_0000 else m.verdict),
     DoublePart([0x21], m.score), DoublePart([0x29], m.weightedScore), DoublePart([0x31], m.duration),
     TextPart([0x3a], m.determinants)]
  }

  ghost function SessionParts(m: Session): (parts: seq<Bytes>) {
    [NumberPart([0x08], m.instanceId), TextPart([0x12], m.id), NumberPart([0x18], m.timeStart),
     NumberPart([0x20], m.timeEnd), TextPart([0x2a], m.saslUsername), TextPart([0x32], m.saslSender),
     TextPart([0x3a], m.saslMethod), TextPart([0x42], m.certIssuer), TextPart([0x4a], m.certSubject),
     NumberPart([0x50], m.cipherBits), TextPart([0x5a], m.cipher), TextPart([0x62], m.tlsVersion),
     TextPart([0x6a], m.ip), TextPart([0x72], m.reverseDns), TextPart([0x7a], m.hostname),
     TextPart([0x82, 0x01], m.helo), TextPart([0x8a, 0x01], m.mtaHostName), TextPart([0x92, 0x01], m.mtaDaemonName)]
  }

  ghost function LearnIdParts(m: LearnId): (parts: seq<Bytes>) {
    [NumberPart([0x08], if m.isSpam then 1 else 0), TextPart([0x12], m.messageId), TextPart([0x8a, 0x01], m.host),
     TextPart([0x92, 0x01], m.reporter), TextPart([0x9a, 0x01], m.reason)]
  }

  ghost function MessageParts(m: Message): (parts: seq<Bytes>) {
    [ListPart([0x0a], if m.session.None? then [] else [Encode(SessionMsg(m.session.value))]),
     TextPart([0x12], m.id), TextPart([0x1a], m.from), ListPart([0x22], m.rcpt),
     ListPart([0x2a], Encoded(m.headers, (x: Header) => HeaderMsg(x))), TextPart([0x32], m.body),
     NumberPart([0x38], if m.verdict < 0 then m.verdict + 0x1_0000_0000_0000_0000 else m.verdict),
     TextPart([0x42], m.verdictMsg), DoublePart([0x49], m.rejectScore), DoublePart([0x51], m.rejectScoreThreshold),
     DoublePart([0x59], m.tempfailScore), DoublePart([0x61], m.tempfailScoreThreshold),
     ListPart([0x6a], Encoded(m.checkResults, (x: CheckResult) => CheckMsg(x)))]
  }

  ghost function LearnParts(m: Learn): (parts: seq<Bytes>) {
    [NumberPart([0x08], if m.isSpam then 1 else 0),
     ListPart([0x12], if m.message.None? then [] else [Encode(MessageMsg(m.message.value))]),
     TextPart([0x8a, 0x01], m.host), TextPart([0x92, 0x01], m.reporter), TextPart([0x9a, 0x01], m.reason)]
  }

  ghost function RpcParts(m: Rpc): (parts: seq<Bytes>) {
    [TextPart([0x0a], m.name),
     ListPart([0x82, 0x40], if m.learn.None? then [] else [Encode(LearnMsg(m.learn.value))]),
     ListPart([0x8a, 0x40], if m.learnId.None? then [] else [Encode(LearnIdMsg(m.learnId.value))])]
  }

  /** The encoding is the concatenation of these fields, in this order. */
  ghost function Parts(m: Msg): seq<Bytes> {
    match m
    case HeaderMsg(h) => HeaderParts(h)
    case CheckMsg(c) => CheckResultParts(c)
    case SessionMsg(s) => SessionParts(s)
    case MessageMsg(x) => MessageParts(x)
    case LearnMsg(l) => LearnParts(l)
    case LearnIdMsg(l) => LearnIdParts(l)
    case RpcMsg(p) => RpcParts(p)
  }

  lemma OneField(f: Field)
    ensures EncFields([f]) == EncField(f) && EncFields([]) == []
  {
    assert [f][..0] == [];
  }

  lemma TextIs(tag: Bytes, num: FieldNum, s: Bytes)
    requires IsTag(tag, num, 2) && num < 2000
    ensures EncFields(OptBytes(num, s)) == TextPart(tag, s)
  {
    TagIs(tag, num, 2);
    OneField(BytesF(num, s));
  }

  lemma NumberIs(tag: Bytes, num: FieldNum, v: uint64)
    requires IsTag(tag, num, 0) && num < 2000
    ensures EncFields(OptVarint(num, v)) == NumberPart(tag, v)
  {
    TagIs(tag, num, 0);
    OneField(VarintF(num, v));
  }

  lemma DoubleIs(tag: Bytes, num: FieldNum, v: uint64)
    requires IsTag(tag, num, 1) && num < 2000
    ensures EncFields(OptDouble(num, v)) == DoublePart(tag, v)
  {
    TagIs(tag, num, 1);
    OneField(Fixed64F(num, v));
  }

  lemma {:induction false} ListIs(tag: Bytes, num: FieldNum, parts: seq<Bytes>)
    requires IsTag(tag, num, 2) && num < 2000
    ensures EncFields(Repeated(num, parts)) == ListPart(tag, parts)
    decreases |parts|
  {
    if parts != [] {
      TagIs(tag, num, 2);
      ListIs(tag, num, parts[..|parts| - 1]);
      var fs := Repeated(num, parts);
      assert fs[..|fs| - 1] == Repeated(num, parts[..|parts| - 1]);
      hide EncVarint;
    }
  }

  lemma SubIs(tag: Bytes, num: FieldNum, o: Option<Bytes>)
    requires IsTag(tag, num, 2) && num < 2000
    ensures EncFields(OptSub(num, o)) == ListPart(tag, if o.None? then [] else [o.value])
  {
    ListIs(tag, num, if o.None? then [] else [o.value]);
    assert OptSub(num, o) == Repeated(num, if o.None? then [] else [o.value]);
  }

  lemma {:induction false} GroupsAre(g: Groups, parts: seq<Bytes>)
    requires |parts| == |g| && forall i :: 0 <= i < |g| ==> EncFields(g[i]) == parts[i]
    ensures EncGroups(g) == Concat(parts)
    decreases |g|
  {
    hide EncFields;
    if g != [] {
      GroupsAre(g[..|g| - 1], parts[..|g| - 1]);
    }
  }

  lemma HeaderPart(m: Header, i: nat)
    requires i < 2
    ensures |HeaderGroups(m)| == |HeaderParts(m)| == 2 && EncFields(HeaderGroups(m)[i]) == HeaderParts(m)[i]
  {
    hide EncFields, EncGroups, OptBytes, OptVarint, OptDouble, OptSub, TextPart, NumberPart, DoublePart, ListPart;
    match i {
      case 0 => TextIs([0x0a], 1, m.key);
      case _ => TextIs([0x12], 2, m.value);
    }
  }

  lemma HeaderWrites(m: Header)
    ensures Encode(HeaderMsg(m)) == Concat(HeaderParts(m))
  {
    var g, parts := HeaderGroups(m), HeaderParts(m);
    assert Encode(HeaderMsg(m)) == EncGroups(g) && |g| == |parts|;
    hide EncGroups, EncFields, HeaderGroups, HeaderParts, Concat;
    forall i | 0 <= i < |g| ensures EncFields(g[i]) == parts[i] {
      HeaderPart(m, i);
    }
    GroupsAre(g, parts);
  }

  lemma CheckResultPart1(m: CheckResult, i: nat)
    requires i < 4
    ensures |CheckGroups(m)| == |CheckResultParts(m)| == 7 && EncFields(CheckGroups(m)[i]) == CheckResultParts(m)[i]
  {
    hide EncFields, EncGroups, OptBytes, OptVarint, OptDouble, OptSub, TextPart, NumberPart, DoublePart, ListPart;
    match i {
      case 0 => TextIs([0x0a], 1, m.messageId);
      case 1 => TextIs([0x12], 2, m.moduleName);
      case 2 => NumberIs([0x18], 3, FromInt32(m.verdict));
      case _ => DoubleIs([0x21], 4, m.score);
    }
  }

  lemma CheckResultPart2(m: CheckResult, i: nat)
    requires 4 <= i < 7
    ensures |CheckGroups(m)| == |CheckResultParts(m)| == 7 && EncFields(CheckGroups(m)[i]) == CheckResultParts(m)[i]
  {
    hide EncFields, EncGroups, OptBytes, OptVarint, OptDouble, OptSub, TextPart, NumberPart, DoublePart, ListPart;
    match i {
      case 4 => DoubleIs([0x29], 5, m.weightedScore);
      case 5 => DoubleIs([0x31], 6, m.duration);
      case _ => TextIs([0x3a], 7, m.determinants);
    }
  }

  lemma CheckResultWrites(m: CheckResult)
    ensures Encode(CheckMsg(m)) == Concat(CheckResultParts(m))
  {
    var g, parts := CheckGroups(m), CheckResultParts(m);
    assert Encode(CheckMsg(m)) == EncGroups(g) && |g| == |parts|;
    hide EncGroups, EncFields, CheckGroups, CheckResultParts, Concat;
    forall i | 0 <= i < |g| ensures EncFields(g[i]) == parts[i] {
      if i < 4 { CheckResultPart1(m, i); } else { CheckResultPart2(m, i); }
    }
    GroupsAre(g, parts);
  }

  lemma SessionPart1(m: Session, i: nat)
    requires i < 6
    ensures |SessionGroups(m)| == |SessionParts(m)| == 18 && EncFields(SessionGroups(m)[i]) == SessionParts(m)[i]
  {
    hide EncFields, EncGroups, OptBytes, OptVarint, OptDouble, OptSub, TextPart, NumberPart, DoublePart, ListPart;
    match i {
      case 0 => NumberIs([0x08], 1, m.instanceId);
      case 1 => TextIs([0x12], 2, m.id);
      case 2 => NumberIs([0x18], 3, m.timeStart);
      case 3 => NumberIs([0x20], 4, m.timeEnd);
      case 4 => TextIs([0x2a], 5, m.saslUsername);
      case _ => TextIs([0x32], 6, m.saslSender);
    }
  }

  lemma SessionPart2(m: Session, i: nat)
    requires 6 <= i < 12
    ensures |SessionGroups(m)| == |SessionParts(m)| == 18 && EncFields(SessionGroups(m)[i]) == SessionParts(m)[i]
  {
    hide EncFields, EncGroups, OptBytes, OptVarint, OptDouble, OptSub, TextPart, NumberPart, DoublePart, ListPart;
    match i {
      case 6 => TextIs([0x3a], 7, m.saslMethod);
      case 7 => TextIs([0x42], 8, m.certIssuer);
      case 8 => TextIs([0x4a], 9, m.certSubject);
      case 9 => NumberIs([0x50], 10, m.cipherBits);
      case 10 => TextIs([0x5a], 11, m.cipher);
      case _ => TextIs([0x62], 12, m.tlsVersion);
    }
  }

  lemma SessionPart3(m: Session, i: nat)
    requires 12 <= i < 18
    ensures |SessionGroups(m)| == |SessionParts(m)| == 18 && EncFields(SessionGroups(m)[i]) == SessionParts(m)[i]
  {
    hide EncFields, EncGroups, OptBytes, OptVarint, OptDouble, OptSub, TextPart, NumberPart, DoublePart, ListPart;
    match i {
      case 12 => TextIs([0x6a], 13, m.ip);
      case 13 => TextIs([0x72], 14, m.reverseDns);
      case 14 => TextIs([0x7a], 15, m.hostname);
      case 15 => TextIs([0x82, 0x01], 16, m.helo);
      case 16 => TextIs([0x8a, 0x01], 17, m.mtaHostName);
      case _ => TextIs([0x92, 0x01], 18, m.mtaDaemonName);
    }
  }

  lemma SessionWrites(m: Session)
    ensures Encode(SessionMsg(m)) == Concat(SessionParts(m))
  {
    var g, parts := SessionGroups(m), SessionParts(m);
    assert Encode(SessionMsg(m)) == EncGroups(g) && |g| == |parts|;
    hide EncGroups, EncFields, SessionGroups, SessionParts, Concat;
    forall i | 0 <= i < |g| ensures EncFields(g[i]) == parts[i] {
      if i < 6 { SessionPart1(m, i); } else if i < 12 { SessionPart2(m, i); } else { SessionPart3(m, i); }
    }
    GroupsAre(g, parts);
  }

  lemma LearnIdPart(m: LearnId, i: nat)
    requires i < 5
    ensures |LearnIdGroups(m)| == |LearnIdParts(m)| == 5 && EncFields(LearnIdGroups(m)[i]) == LearnIdParts(m)[i]
  {
    hide EncFields, EncGroups, OptBytes, OptVarint, OptDouble, OptSub, TextPart, NumberPart, DoublePart, ListPart;
    match i {
      case 0 => NumberIs([0x08], 1, BoolBit(m.isSpam));
      case 1 => TextIs([0x12], 2, m.messageId);
      case 2 => TextIs([0x8a, 0x01], 17, m.host);
      case 3 => TextIs([0x92, 0x01], 18, m.reporter);
      case _ => TextIs([0x9a, 0x01], 19, m.reason);
    }
  }

  lemma LearnIdWrites(m: LearnId)
    ensures Encode(LearnIdMsg(m)) == Concat(LearnIdParts(m))
  {
    var g, parts := LearnIdGroups(m), LearnIdParts(m);
    assert Encode(LearnIdMsg(m)) == EncGroups(g) && |g| == |parts|;
    hide EncGroups, EncFields, LearnIdGroups, LearnIdParts, Concat;
    forall i | 0 <= i < |g| ensures EncFields(g[i]) == parts[i] {
      LearnIdPart(m, i);
    }
    GroupsAre(g, parts);
  }

  lemma MessagePart1(m: Message, i: nat)
    requires i < 3
    ensures |MessageGroups(m)| == |MessageParts(m)| == 13 && EncFields(MessageGroups(m)[i]) == MessageParts(m)[i]
  {
    hide EncFields, EncGroups, OptBytes, OptVarint, OptDouble, OptSub, TextPart, NumberPart, DoublePart, ListPart;
    match i {
      case 0 => SubIs([0x0a], 1, EncSession(m.session));
      case 1 => TextIs([0x12], 2, m.id);
      case _ => TextIs([0x1a], 3, m.from);
    }
  }

  lemma MessagePart2(m: Message, i: nat)
    requires 3 <= i < 6
    ensures |MessageGroups(m)| == |MessageParts(m)| == 13 && EncFields(MessageGroups(m)[i]) == MessageParts(m)[i]
  {
    hide EncFields, EncGroups, OptBytes, OptVarint, OptDouble, OptSub, TextPart, NumberPart, DoublePart, ListPart;
    assert EncHeaders(m.headers) == Encoded(m.headers, (x: Header) => HeaderMsg(x));
    match i {
      case 3 => ListIs([0x22], 4, m.rcpt);
      case 4 => ListIs([0x2a], 5, EncHeaders(m.headers));
      case _ => TextIs([0x32], 6, m.body);
    }
  }

  lemma MessagePart3(m: Message, i: nat)
    requires 6 <= i < 8
    ensures |MessageGroups(m)| == |MessageParts(m)| == 13 && EncFields(MessageGroups(m)[i]) == MessageParts(m)[i]
  {
    hide EncFields, EncGroups, OptBytes, OptVarint, OptDouble, OptSub, TextPart, NumberPart, DoublePart, ListPart;
    match i {
      case 6 => NumberIs([0x38], 7, FromInt32(m.verdict));
      case _ => TextIs([0x42], 8, m.verdictMsg);
    }
  }

  lemma MessagePart4(m: Message, i: nat)
    requires 8 <= i < 13
    ensures |MessageGroups(m)| == |MessageParts(m)| == 13 && EncFields(MessageGroups(m)[i]) == MessageParts(m)[i]
  {
    hide EncFields, EncGroups, OptBytes, OptVarint, OptDouble, OptSub, TextPart, NumberPart, DoublePart, ListPart;
    assert EncChecks(m.checkResults) == Encoded(m.checkResults, (x: CheckResult) => CheckMsg(x));
    match i {
      case 8 => DoubleIs([0x49], 9, m.rejectScore);
      case 9 => DoubleIs([0x51], 10, m.rejectScoreThreshold);
      case 10 => DoubleIs([0x59], 11, m.tempfailScore);
      case 11 => DoubleIs([0x61], 12, m.tempfailScoreThreshold);
      case _ => ListIs([0x6a], 13, EncChecks(m.checkResults));
    }
  }

  lemma MessageWrites(m: Message)
    ensures Encode(MessageMsg(m)) == Concat(MessageParts(m))
  {
    var g, parts := MessageGroups(m), MessageParts(m);
    assert Encode(MessageMsg(m)) == EncGroups(g) && |g| == |parts|;
    hide EncGroups, EncFields, MessageGroups, MessageParts, Concat;
    forall i | 0 <= i < |g| ensures EncFields(g[i]) == parts[i] {
      if i < 3 { MessagePart1(m, i); } else if i < 6 { MessagePart2(m, i); }
      else if i < 8 { MessagePart3(m, i); } else { MessagePart4(m, i); }
    }
    GroupsAre(g, parts);
  }

  lemma LearnPart(m: Learn, i: nat)
    requires i < 5
    ensures |LearnGroups(m)| == |LearnParts(m)| == 5 && EncFields(LearnGroups(m)[i]) == LearnParts(m)[i]
  {
    hide EncFields, EncGroups, OptBytes, OptVarint, OptDouble, OptSub, TextPart, NumberPart, DoublePart, ListPart;
    match i {
      case 0 => NumberIs([0x08], 1, BoolBit(m.isSpam));
      case 1 => SubIs([0x12], 2, EncMessage(m.message));
      case 2 => TextIs([0x8a, 0x01], 17, m.host);
      case 3 => TextIs([0x92, 0x01], 18, m.reporter);
      case _ => TextIs([0x9a, 0x01], 19, m.reason);
    }
  }

  lemma LearnWrites(m: Learn)
    ensures Encode(LearnMsg(m)) == Concat(LearnParts(m))
  {
    var g, parts := LearnGroups(m), LearnParts(m);
    assert Encode(LearnMsg(m)) == EncGroups(g) && |g| == |parts|;
    hide EncGroups, EncFields, LearnGroups, LearnParts, Concat;
    forall i | 0 <= i < |g| ensures EncFields(g[i]) == parts[i] {
      LearnPart(m, i);
    }
    GroupsAre(g, parts);
  }

  lemma RpcPart(m: Rpc, i: nat)
    requires i < 3
    ensures |RpcGroups(m)| == |RpcParts(m)| == 3 && EncFields(RpcGroups(m)[i]) == RpcParts(m)[i]
  {
    hide EncFields, EncGroups, OptBytes, OptVarint, OptDouble, OptSub, TextPart, NumberPart, DoublePart, ListPart;
    match i {
      case 0 => TextIs([0x0a], 1, m.name);
      case 1 => SubIs([0x82, 0x40], 1024, EncLearn(m.learn));
      case _ => SubIs([0x8a, 0x40], 1025, EncLearnId(m.learnId));
    }
  }

  lemma RpcWrites(m: Rpc)
    ensures Encode(RpcMsg(m)) == Concat(RpcParts(m))
  {
    var g, parts := RpcGroups(m), RpcParts(m);
    assert Encode(RpcMsg(m)) == EncGroups(g) && |g| == |parts|;
    hide EncGroups, EncFields, RpcGroups, RpcParts, Concat;
    forall i | 0 <= i < |g| ensures EncFields(g[i]) == parts[i] {
      RpcPart(m, i);
    }
    GroupsAre(g, parts);
  }

  /** Every message is written as the concatenation of its parts. */
  lemma WritesParts(m: Msg)
    ensures Encode(m) == Concat(Parts(m))
  {
    hide Encode, Concat;
    match m
    case HeaderMsg(h) => HeaderWrites(h);
    case CheckMsg(c) => CheckResultWrites(c);
    case SessionMsg(s) => SessionWrites(s);
    case MessageMsg(x) => MessageWrites(x);
    case LearnMsg(l) => LearnWrites(l);
    case LearnIdMsg(l) => LearnIdWrites(l);
    case RpcMsg(p) => RpcWrites(p);
  }

  lemma {:induction false} NoPart(parts: seq<Bytes>)
    requires forall i :: 0 <= i < |parts| ==> parts[i] == []
    ensures Concat(parts) == []
    decreases |parts|
  {
    if parts != [] {
      NoPart(parts[..|parts| - 1]);
    }
  }

  lemma {:induction false} OnlyPart(parts: seq<Bytes>, k: nat)
    requires k < |parts| && forall i :: 0 <= i < |parts| && i != k ==> parts[i] == []
    ensures Concat(parts) == parts[k]
    decreases |parts|
  {
    var init := parts[..|parts| - 1];
    if k < |init| {
      OnlyPart(init, k);
    } else {
      NoPart(init);
    }
  }

  /** A value with one field set is written as that field's tag and payload. */
  lemma WritesOnly(m: Msg, k: nat)
    requires k < |Parts(m)| && forall i :: 0 <= i < |Parts(m)| && i != k ==> Parts(m)[i] == []
    ensures Encode(m) == Parts(m)[k]
  {
    hide Encode, Concat, Parts;
    WritesParts(m);
    OnlyPart(Parts(m), k);
  }
}
