/** The protocol buffer messages, the fields that their encoders write and what
    their decoders do with each field (cluegetter.pb.go, lines 65-219, 248-733,
    1021-2778). Doubles are 64-bit patterns; strings are byte sequences. */
module Schema {
  import opened Wire

  datatype Header = Header(key: Bytes, value: Bytes)

  datatype CheckResult = CheckResult(
    messageId: Bytes, moduleName: Bytes, verdict: int32, score: uint64,
    weightedScore: uint64, duration: uint64, determinants: Bytes)

  datatype Session = Session(
    instanceId: uint64, id: Bytes, timeStart: uint64, timeEnd: uint64, saslUsername: Bytes,
    saslSender: Bytes, saslMethod: Bytes, certIssuer: Bytes, certSubject: Bytes, cipherBits: uint32,
    cipher: Bytes, tlsVersion: Bytes, ip: Bytes, reverseDns: Bytes, hostname: Bytes, helo: Bytes,
    mtaHostName: Bytes, mtaDaemonName: Bytes)

  datatype Message = Message(
    session: Option<Session>, id: Bytes, from: Bytes, rcpt: seq<Bytes>, headers: seq<Header>,
    body: Bytes, verdict: int32, verdictMsg: Bytes, rejectScore: uint64, rejectScoreThreshold: uint64,
    tempfailScore: uint64, tempfailScoreThreshold: uint64, checkResults: seq<CheckResult>)

  datatype Learn = Learn(isSpam: bool, message: Option<Message>, host: Bytes, reporter: Bytes, reason: Bytes)

  datatype LearnId = LearnId(isSpam: bool, messageId: Bytes, host: Bytes, reporter: Bytes, reason: Bytes)

  datatype Rpc = Rpc(name: Bytes, learn: Option<Learn>, learnId: Option<LearnId>)

  /** The values just allocated, before anything is decoded into them. */
  const NEW_HEADER := Header([], [])
  const NEW_CHECK := CheckResult([], [], 0, 0, 0, 0, [])
  const NEW_SESSION := Session(0, [], 0, 0, [], [], [], [], [], 0, [], [], [], [], [], [], [], [])
  const NEW_MESSAGE := Message(None, [], [], [], [], [], 0, [], 0, 0, 0, 0, [])
  const NEW_LEARN := Learn(false, None, [], [], [])
  const NEW_LEARN_ID := LearnId(false, [], [], [], [])
  const NEW_RPC := Rpc([], None, None)

  /** A message of any of the types: the receiver of Marshal and Unmarshal. */
  datatype Msg =
    | HeaderMsg(header: Header)
    | CheckMsg(check: CheckResult)
    | SessionMsg(session: Session)
    | MessageMsg(message: Message)
    | LearnMsg(learn: Learn)
    | LearnIdMsg(learnId: LearnId)
    | RpcMsg(rpc: Rpc)

  datatype Kind = KHeader | KCheck | KSession | KMessage | KLearn | KLearnId | KRpc

  function KindOf(m: Msg): Kind {
    match m
    case HeaderMsg(_) => KHeader
    case CheckMsg(_) => KCheck
    case SessionMsg(_) => KSession
    case MessageMsg(_) => KMessage
    case LearnMsg(_) => KLearn
    case LearnIdMsg(_) => KLearnId
    case RpcMsg(_) => KRpc
  }

  function Fresh(k: Kind): Msg {
    match k
    case KHeader => HeaderMsg(NEW_HEADER)
    case KCheck => CheckMsg(NEW_CHECK)
    case KSession => SessionMsg(NEW_SESSION)
    case KMessage => MessageMsg(NEW_MESSAGE)
    case KLearn => LearnMsg(NEW_LEARN)
    case KLearnId => LearnIdMsg(NEW_LEARN_ID)
    case KRpc => RpcMsg(NEW_RPC)
  }

  type FieldNum = n: int | 0 < n witness 1

  /** A field on the wire that a message type knows. */
  datatype Field =
    | VarintF(num: FieldNum, v: uint64)
    | Fixed64F(num: FieldNum, v: uint64)
    | BytesF(num: FieldNum, s: Bytes)

  function WireOf(f: Field): nat {
    match f
    case VarintF(_, _) => 0
    case Fixed64F(_, _) => 1
    case BytesF(_, _) => 2
  }

  /** The wire type that each type demands of each field number it knows. */
  function Expected(k: Kind, num: int): Option<nat> {
    match k
    case KHeader => if num == 1 || num == 2 then Some(2) else None
    case KCheck =>
      if num == 1 || num == 2 || num == 7 then Some(2)
      else if num == 3 then Some(0)
      else if num == 4 || num == 5 || num == 6 then Some(1)
      else None
    case KSession =>
      if num == 1 || num == 3 || num == 4 || num == 10 then Some(0) else if 2 <= num <= 18 then Some(2) else None
    case KMessage =>
      if num == 7 then Some(0)
      else if 9 <= num <= 12 then Some(1)
      else if 1 <= num <= 13 then Some(2)
      else None
    case KLearn =>
      if num == 1 then Some(0) else if num == 2 || num == 17 || num == 18 || num == 19 then Some(2) else None
    case KLearnId =>
      if num == 1 then Some(0) else if num == 2 || num == 17 || num == 18 || num == 19 then Some(2) else None
    case KRpc => if num == 1 || num == 1024 || num == 1025 then Some(2) else None
  }

  predicate Knows(k: Kind, f: Field) {
    Expected(k, f.num) == Some(WireOf(f))
  }

  // ----- Encoding -----

  /** The tag of a field: its number above the three bits of the wire type. */
  function Tag(num: FieldNum, wireType: nat): Bytes {
    EncVarint(num * 8 + wireType)
  }

  function EncField(f: Field): Bytes {
    match f
    case VarintF(num, v) => Tag(num, 0) + EncVarint(v)
    case Fixed64F(num, v) => Tag(num, 1) + LittleEndian(v, 8)
    case BytesF(num, s) => Tag(num, 2) + EncVarint(|s|) + s
  }

  predicate AllKnown(k: Kind, fs: seq<Field>) {
    forall i :: 0 <= i < |fs| ==> Knows(k, fs[i])
  }

  ghost function EncFields(fs: seq<Field>): Bytes {
    if fs == [] then [] else EncFields(fs[..|fs| - 1]) + EncField(fs[|fs| - 1])
  }

  /** The fields of a message, one group for each field of its type. */
  type Groups = seq<seq<Field>>

  ghost function EncGroups(g: Groups): Bytes {
    if g == [] then [] else EncGroups(g[..|g| - 1]) + EncFields(g[|g| - 1])
  }

  function OptVarint(num: FieldNum, v: uint64): (fs: seq<Field>) {
    if v != 0 then [VarintF(num, v)] else []
  }

  /** A double differs from zero unless all bits, or all but its sign, are zero. */
  predicate NonZero(bits: uint64) {
    bits != 0 && bits != TWO_63
  }

  function OptDouble(num: FieldNum, bits: uint64): (fs: seq<Field>) {
    if NonZero(bits) then [Fixed64F(num, bits)] else []
  }

  function OptBytes(num: FieldNum, s: Bytes): (fs: seq<Field>) {
    if |s| > 0 then [BytesF(num, s)] else []
  }

  function OptSub(num: FieldNum, encoded: Option<Bytes>): (fs: seq<Field>) {
    if encoded.Some? then [BytesF(num, encoded.value)] else []
  }

  function Repeated(num: FieldNum, parts: seq<Bytes>): (fs: seq<Field>)
    ensures |fs| == |parts|
    ensures forall i :: 0 <= i < |fs| ==> fs[i] == BytesF(num, parts[i])
  {
    seq(|parts|, i requires 0 <= i < |parts| => BytesF(num, parts[i]))
  }

  function BoolBit(b: bool): uint64 {
    if b then 1 else 0
  }

  ghost function HeaderGroups(m: Header): (g: Groups) {
    [OptBytes(1, m.key), OptBytes(2, m.value)]
  }

  ghost function CheckGroups(m: CheckResult): (g: Groups) {
    [OptBytes(1, m.messageId), OptBytes(2, m.moduleName), OptVarint(3, FromInt32(m.verdict)),
     OptDouble(4, m.score), OptDouble(5, m.weightedScore), OptDouble(6, m.duration),
     OptBytes(7, m.determinants)]
  }

  ghost function SessionGroups(m: Session): (g: Groups) {
    [OptVarint(1, m.instanceId), OptBytes(2, m.id), OptVarint(3, m.timeStart), OptVarint(4, m.timeEnd),
     OptBytes(5, m.saslUsername), OptBytes(6, m.saslSender), OptBytes(7, m.saslMethod),
     OptBytes(8, m.certIssuer), OptBytes(9, m.certSubject), OptVarint(10, m.cipherBits),
     OptBytes(11, m.cipher), OptBytes(12, m.tlsVersion), OptBytes(13, m.ip), OptBytes(14, m.reverseDns),
     OptBytes(15, m.hostname), OptBytes(16, m.helo), OptBytes(17, m.mtaHostName),
     OptBytes(18, m.mtaDaemonName)]
  }

  ghost function EncHeaders(hs: seq<Header>): (parts: seq<Bytes>)
    ensures |parts| == |hs|
    ensures forall i :: 0 <= i < |hs| ==> parts[i] == EncGroups(HeaderGroups(hs[i]))
  {
    seq(|hs|, i requires 0 <= i < |hs| => EncGroups(HeaderGroups(hs[i])))
  }

  ghost function EncChecks(cs: seq<CheckResult>): (parts: seq<Bytes>)
    ensures |parts| == |cs|
    ensures forall i :: 0 <= i < |cs| ==> parts[i] == EncGroups(CheckGroups(cs[i]))
  {
    seq(|cs|, i requires 0 <= i < |cs| => EncGroups(CheckGroups(cs[i])))
  }

  ghost function EncSession(o: Option<Session>): Option<Bytes> {
    if o.None? then None else Some(EncGroups(SessionGroups(o.value)))
  }

  ghost function MessageGroups(m: Message): (g: Groups) {
    [OptSub(1, EncSession(m.session)), OptBytes(2, m.id), OptBytes(3, m.from), Repeated(4, m.rcpt),
     Repeated(5, EncHeaders(m.headers)), OptBytes(6, m.body), OptVarint(7, FromInt32(m.verdict)),
     OptBytes(8, m.verdictMsg), OptDouble(9, m.rejectScore), OptDouble(10, m.rejectScoreThreshold),
     OptDouble(11, m.tempfailScore), OptDouble(12, m.tempfailScoreThreshold),
     Repeated(13, EncChecks(m.checkResults))]
  }

  ghost function EncMessage(o: Option<Message>): Option<Bytes> {
    if o.None? then None else Some(EncGroups(MessageGroups(o.value)))
  }

  ghost function LearnGroups(m: Learn): (g: Groups) {
    [OptVarint(1, BoolBit(m.isSpam)), OptSub(2, EncMessage(m.message)), OptBytes(17, m.host),
     OptBytes(18, m.reporter), OptBytes(19, m.reason)]
  }

  ghost function LearnIdGroups(m: LearnId): (g: Groups) {
    [OptVarint(1, BoolBit(m.isSpam)), OptBytes(2, m.messageId), OptBytes(17, m.host),
     OptBytes(18, m.reporter), OptBytes(19, m.reason)]
  }

  ghost function EncLearn(o: Option<Learn>): Option<Bytes> {
    if o.None? then None else Some(EncGroups(LearnGroups(o.value)))
  }

  ghost function EncLearnId(o: Option<LearnId>): Option<Bytes> {
    if o.None? then None else Some(EncGroups(LearnIdGroups(o.value)))
  }

  ghost function RpcGroups(m: Rpc): (g: Groups) {
    [OptBytes(1, m.name), OptSub(1024, EncLearn(m.learn)), OptSub(1025, EncLearnId(m.learnId))]
  }

  ghost function GroupsOf(m: Msg): (g: Groups) {
    match m
    case HeaderMsg(h) => HeaderGroups(h)
    case CheckMsg(c) => CheckGroups(c)
    case SessionMsg(s) => SessionGroups(s)
    case MessageMsg(x) => MessageGroups(x)
    case LearnMsg(l) => LearnGroups(l)
    case LearnIdMsg(l) => LearnIdGroups(l)
    case RpcMsg(r) => RpcGroups(r)
  }

  /** The bytes of a message. */
  ghost function Encode(m: Msg): Bytes {
    EncGroups(GroupsOf(m))
  }

  // ----- Decoding -----

  function ReadPayload(num: FieldNum, wireType: nat, d: Bytes): (r: Result<(Field, nat)>)
    ensures r.Ok? ==> 1 <= r.value.1 <= |d| && r.value.0.num == num
    ensures r.Ok? && wireType <= 2 ==> WireOf(r.value.0) == wireType
    ensures r.Ok? && r.value.0.BytesF? ==> |r.value.0.s| < |d|
  {
    if wireType == 0 then
      var (v, n) :- ReadVarint(d);
      Ok((VarintF(num, v), n))
    else if wireType == 1 then
      var (v, n) :- ReadFixed64(d);
      Ok((Fixed64F(num, v), n))
    else
      var (len, n) :- ReadVarint(d);
      if len >= TWO_63 then Err(InvalidLength)
      else if n + len > |d| then Err(UnexpectedEof)
      else Ok((BytesF(num, d[n..n + len]), n + len))
  }

  /** Reads one field for a message of kind k: the field, or nothing for an
      unknown number, and the number of bytes taken. */
  function ReadItem(k: Kind, d: Bytes): (r: Result<(Option<Field>, nat)>)
    ensures r.Ok? ==> 1 <= r.value.1 <= |d|
    ensures r.Ok? && r.value.0.Some? ==> Knows(k, r.value.0.value)
    ensures r.Ok? && r.value.0.Some? && r.value.0.value.BytesF? ==> |r.value.0.value.s| < |d|
  {
    var (wire, t) :- ReadVarint(d);
    var num := ToInt32(wire / 8);
    if wire % 8 == 4 then Err(EndGroup)
    else if num <= 0 then Err(IllegalTag)
    else if Expected(k, num).None? then
      var n :- Skip(d);
      if n > |d| then Err(UnexpectedEof) else Ok((None, n))
    else if Expected(k, num).value != wire % 8 then Err(WrongWireType)
    else
      var (f, n) :- ReadPayload(num, wire % 8, d[t..]);
      Ok((Some(f), t + n))
  }

  function ApplyHeader(m: Header, f: Field): Header
    requires Knows(KHeader, f)
  {
    if f.num == 1 then m.(key := f.s) else m.(value := f.s)
  }

  function ApplyCheck(m: CheckResult, f: Field): CheckResult
    requires Knows(KCheck, f)
  {
    match f.num
    case 1 => m.(messageId := f.s)
    case 2 => m.(moduleName := f.s)
    case 3 => m.(verdict := ToInt32(f.v))
    case 4 => m.(score := f.v)
    case 5 => m.(weightedScore := f.v)
    case 6 => m.(duration := f.v)
    case _ => m.(determinants := f.s)
  }

  function ApplySession(m: Session, f: Field): Session
    requires Knows(KSession, f)
  {
    match f.num
    case 1 => m.(instanceId := f.v)
    case 2 => m.(id := f.s)
    case 3 => m.(timeStart := f.v)
    case 4 => m.(timeEnd := f.v)
    case 5 => m.(saslUsername := f.s)
    case 6 => m.(saslSender := f.s)
    case 7 => m.(saslMethod := f.s)
    case 8 => m.(certIssuer := f.s)
    case 9 => m.(certSubject := f.s)
    case 10 => m.(cipherBits := f.v % TWO_32)
    case 11 => m.(cipher := f.s)
    case 12 => m.(tlsVersion := f.s)
    case 13 => m.(ip := f.s)
    case 14 => m.(reverseDns := f.s)
    case 15 => m.(hostname := f.s)
    case 16 => m.(helo := f.s)
    case 17 => m.(mtaHostName := f.s)
    case _ => m.(mtaDaemonName := f.s)
  }

  function ApplyLearnId(m: LearnId, f: Field): LearnId
    requires Knows(KLearnId, f)
  {
    match f.num
    case 1 => m.(isSpam := f.v != 0)
    case 2 => m.(messageId := f.s)
    case 17 => m.(host := f.s)
    case 18 => m.(reporter := f.s)
    case _ => m.(reason := f.s)
  }

  function Or<T>(o: Option<T>, default: T): T {
    if o.Some? then o.value else default
  }

  function PayloadSize(f: Field): nat {
    if f.BytesF? then |f.s| else 0
  }

  function ApplyMessage(m: Message, f: Field): Result<Message>
    requires Knows(KMessage, f)
    decreases PayloadSize(f), 1
  {
    match f.num
    case 1 =>
      var s :- Decode(SessionMsg(Or(m.session, NEW_SESSION)), f.s);
      Ok(m.(session := Some(s.session)))
    case 2 => Ok(m.(id := f.s))
    case 3 => Ok(m.(from := f.s))
    case 4 => Ok(m.(rcpt := m.rcpt + [f.s]))
    case 5 =>
      var h :- Decode(HeaderMsg(NEW_HEADER), f.s);
      Ok(m.(headers := m.headers + [h.header]))
    case 6 => Ok(m.(body := f.s))
    case 7 => Ok(m.(verdict := ToInt32(f.v)))
    case 8 => Ok(m.(verdictMsg := f.s))
    case 9 => Ok(m.(rejectScore := f.v))
    case 10 => Ok(m.(rejectScoreThreshold := f.v))
    case 11 => Ok(m.(tempfailScore := f.v))
    case 12 => Ok(m.(tempfailScoreThreshold := f.v))
    case _ =>
      var c :- Decode(CheckMsg(NEW_CHECK), f.s);
      Ok(m.(checkResults := m.checkResults + [c.check]))
  }

  function ApplyLearn(m: Learn, f: Field): Result<Learn>
    requires Knows(KLearn, f)
    decreases PayloadSize(f), 1
  {
    match f.num
    case 1 => Ok(m.(isSpam := f.v != 0))
    case 2 =>
      var x :- Decode(MessageMsg(Or(m.message, NEW_MESSAGE)), f.s);
      Ok(m.(message := Some(x.message)))
    case 17 => Ok(m.(host := f.s))
    case 18 => Ok(m.(reporter := f.s))
    case _ => Ok(m.(reason := f.s))
  }

  function ApplyRpc(m: Rpc, f: Field): Result<Rpc>
    requires Knows(KRpc, f)
    decreases PayloadSize(f), 1
  {
    match f.num
    case 1 => Ok(m.(name := f.s))
    case 1024 =>
      var l :- Decode(LearnMsg(Or(m.learn, NEW_LEARN)), f.s);
      Ok(m.(learn := Some(l.learn)))
    case _ =>
      var l :- Decode(LearnIdMsg(Or(m.learnId, NEW_LEARN_ID)), f.s);
      Ok(m.(learnId := Some(l.learnId)))
  }

  /** One pass through the decoder's switch. */
  function Apply(m: Msg, f: Field): (r: Result<Msg>)
    requires Knows(KindOf(m), f)
    ensures r.Ok? ==> KindOf(r.value) == KindOf(m)
    decreases PayloadSize(f), 2
  {
    match m
    case HeaderMsg(h) => Ok(HeaderMsg(ApplyHeader(h, f)))
    case CheckMsg(c) => Ok(CheckMsg(ApplyCheck(c, f)))
    case SessionMsg(s) => Ok(SessionMsg(ApplySession(s, f)))
    case MessageMsg(x) =>
      var y :- ApplyMessage(x, f);
      Ok(MessageMsg(y))
    case LearnMsg(l) =>
      var y :- ApplyLearn(l, f);
      Ok(LearnMsg(y))
    case LearnIdMsg(l) => Ok(LearnIdMsg(ApplyLearnId(l, f)))
    case RpcMsg(p) =>
      var y :- ApplyRpc(p, f);
      Ok(RpcMsg(y))
  }

  /** Decoding `d` into m: the loop of Unmarshal. */
  function Decode(m: Msg, d: Bytes): (r: Result<Msg>)
    ensures r.Ok? ==> KindOf(r.value) == KindOf(m)
    decreases |d|, 0
  {
    if d == [] then Ok(m)
    else
      var (f, n) :- ReadItem(KindOf(m), d);
      var next :- if f.Some? then Apply(m, f.value) else Ok(m);
      Decode(next, d[n..])
  }
}
