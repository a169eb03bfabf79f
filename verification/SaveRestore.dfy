/** Saving a message with its verdict and turning the stored bytes back into a
    message (message.go, lines 450-505 and 699-745; messagePersist.go, lines 26-41).
    Strings are bytes and scores are the 64-bit patterns of doubles. */
module SaveRestore {
  import opened Wire
  import opened Schema
  import opened CodecLaws
  import opened Addresses
  import MessageCache

  const AT: byte := 64

  type MailAddress = Address<byte>

  datatype MailHeader = MailHeader(key: Bytes, value: Bytes, flagUnique: bool, deleted: bool)

  /** A module's answer; its duration in seconds and its determinants are as stored. */
  datatype Answer = Answer(moduleName: Bytes, action: int32, message: Bytes, score: uint64, weightedScore: uint64,
                           duration: uint64, determinants: Bytes)

  datatype Mail = Mail(
    queueId: Bytes, from: MailAddress, rcpt: seq<MailAddress>, headers: seq<MailHeader>, body: Bytes,
    verdict: int32, verdictMsg: Bytes, rejectScore: uint64, rejectScoreThreshold: uint64,
    tempfailScore: uint64, tempfailScoreThreshold: uint64, checkResults: seq<Answer>)

  // ----- What is saved -----

  function SavedHeaders(hs: seq<MailHeader>): (r: seq<Header>)
    ensures |r| == |hs| && forall i :: 0 <= i < |hs| ==> r[i] == Header(hs[i].key, hs[i].value)
  {
    seq(|hs|, i requires 0 <= i < |hs| => Header(hs[i].key, hs[i].value))
  }

  function SavedAnswer(queueId: Bytes, a: Answer): CheckResult {
    CheckResult(queueId, a.moduleName, a.action, a.score, a.weightedScore, a.duration, a.determinants)
  }

  function SavedAnswers(queueId: Bytes, s: seq<Answer>): (r: seq<CheckResult>)
    ensures |r| == |s| && forall i :: 0 <= i < |s| ==> r[i] == SavedAnswer(queueId, s[i])
  {
    seq(|s|, i requires 0 <= i < |s| => SavedAnswer(queueId, s[i]))
  }

  function Printed(s: seq<MailAddress>): (r: seq<Bytes>)
    ensures |r| == |s| && forall i :: 0 <= i < |s| ==> r[i] == ToString(s[i], AT)
  {
    seq(|s|, i requires 0 <= i < |s| => ToString(s[i], AT))
  }

  function Saved(m: Mail, session: Session): Message {
    Message(Some(session), m.queueId, ToString(m.from, AT), Printed(m.rcpt), SavedHeaders(m.headers), m.body,
            m.verdict, m.verdictMsg, m.rejectScore, m.rejectScoreThreshold, m.tempfailScore,
            m.tempfailScoreThreshold, SavedAnswers(m.queueId, m.checkResults))
  }

  /** The struct that messageSave builds, list by list. */
  method Save(m: Mail, session: Session) returns (proto: Message)
    ensures proto == Saved(m, session)
  {
    var checkResults: seq<CheckResult> := [];
    for i := 0 to |m.checkResults|
      invariant checkResults == SavedAnswers(m.queueId, m.checkResults)[..i]
    {
      var a := m.checkResults[i];
      checkResults := checkResults
        + [CheckResult(m.queueId, a.moduleName, a.action, a.score, a.weightedScore, a.duration, a.determinants)];
    }
    var headers := new Header[|m.headers|](_ => NEW_HEADER);
    for k := 0 to |m.headers|
      invariant headers[..k] == SavedHeaders(m.headers)[..k]
    {
      headers[k] := Header(m.headers[k].key, m.headers[k].value);
    }
    var rcpt: seq<Bytes> := [];
    for i := 0 to |m.rcpt|
      invariant rcpt == Printed(m.rcpt)[..i]
    {
      rcpt := rcpt + [ToString(m.rcpt[i], AT)];
    }
    assert headers[..] == headers[..|m.headers|];
    proto := Message(Some(session), m.queueId, ToString(m.from, AT), rcpt, headers[..], m.body, m.verdict,
                     m.verdictMsg, m.rejectScore, m.rejectScoreThreshold, m.tempfailScore, m.tempfailScoreThreshold,
                     checkResults);
  }

  // ----- What is restored -----

  function Parsed(s: seq<Bytes>): (r: seq<MailAddress>)
    ensures |r| == |s| && forall i :: 0 <= i < |s| ==> r[i] == FromString(s[i], AT)
  {
    seq(|s|, i requires 0 <= i < |s| => FromString(s[i], AT))
  }

  function RestoredHeaders(hs: seq<Header>): (r: seq<MailHeader>)
    ensures |r| == |hs| && forall i :: 0 <= i < |hs| ==> r[i] == MailHeader(hs[i].key, hs[i].value, false, false)
  {
    seq(|hs|, i requires 0 <= i < |hs| => MailHeader(hs[i].key, hs[i].value, false, false))
  }

  function RestoredAnswer(c: CheckResult): Answer {
    Answer(c.moduleName, c.verdict, [], c.score, c.weightedScore, c.duration, c.determinants)
  }

  function RestoredAnswers(s: seq<CheckResult>): (r: seq<Answer>)
    ensures |r| == |s| && forall i :: 0 <= i < |s| ==> r[i] == RestoredAnswer(s[i])
  {
    seq(|s|, i requires 0 <= i < |s| => RestoredAnswer(s[i]))
  }

  function Restored(p: Message): Mail {
    Mail(p.id, FromString(p.from, AT), Parsed(p.rcpt), RestoredHeaders(p.headers), p.body, p.verdict, p.verdictMsg,
         p.rejectScore, p.rejectScoreThreshold, p.tempfailScore, p.tempfailScoreThreshold,
         RestoredAnswers(p.checkResults))
  }

  /** GetAsMessage, which appends to the lists of a new message. */
  method GetAsMessage(p: Message) returns (out: Mail)
    ensures out == Restored(p)
  {
    var rcpt: seq<MailAddress> := [];
    for i := 0 to |p.rcpt|
      invariant rcpt == Parsed(p.rcpt)[..i]
    {
      rcpt := rcpt + [FromString(p.rcpt[i], AT)];
    }
    var headers: seq<MailHeader> := [];
    for i := 0 to |p.headers|
      invariant headers == RestoredHeaders(p.headers)[..i]
    {
      headers := headers + [MailHeader(p.headers[i].key, p.headers[i].value, false, false)];
    }
    var answers: seq<Answer> := [];
    for i := 0 to |p.checkResults|
      invariant answers == RestoredAnswers(p.checkResults)[..i]
    {
      answers := answers + [RestoredAnswer(p.checkResults[i])];
    }
    out := Mail(p.id, FromString(p.from, AT), rcpt, headers, p.body, p.verdict, p.verdictMsg, p.rejectScore,
                p.rejectScoreThreshold, p.tempfailScore, p.tempfailScoreThreshold, answers);
  }

  // ----- Field by field -----

  ghost predicate SavesAnswer(queueId: Bytes, a: Answer, c: CheckResult) {
    && c.messageId == queueId && c.moduleName == a.moduleName && c.verdict == a.action
    && c.score == a.score && c.weightedScore == a.weightedScore
    && c.duration == a.duration && c.determinants == a.determinants
  }

  /** Each part of a message is saved in the field of its name, the addresses as they
      print and the answers under the queue id; the marks of the headers are not. */
  lemma SavedIs(m: Mail, session: Session)
    ensures var p := Saved(m, session);
            && p.session == Some(session) && p.id == m.queueId && p.body == m.body
            && p.verdict == m.verdict && p.verdictMsg == m.verdictMsg
            && p.rejectScore == m.rejectScore && p.rejectScoreThreshold == m.rejectScoreThreshold
            && p.tempfailScore == m.tempfailScore && p.tempfailScoreThreshold == m.tempfailScoreThreshold
            && p.from == ToString(m.from, 64) && |p.rcpt| == |m.rcpt|
            && (forall i :: 0 <= i < |m.rcpt| ==> p.rcpt[i] == ToString(m.rcpt[i], 64))
            && |p.headers| == |m.headers|
            && (forall i :: 0 <= i < |m.headers| ==>
                  p.headers[i].key == m.headers[i].key && p.headers[i].value == m.headers[i].value)
            && |p.checkResults| == |m.checkResults|
            && forall i :: 0 <= i < |m.checkResults| ==> SavesAnswer(m.queueId, m.checkResults[i], p.checkResults[i])
  {
    hide ToString;
  }

  ghost predicate RestoresAnswer(c: CheckResult, a: Answer) {
    && a.moduleName == c.moduleName && a.action == c.verdict && a.message == []
    && a.score == c.score && a.weightedScore == c.weightedScore
    && a.duration == c.duration && a.determinants == c.determinants
  }

  /** And each field of what was saved is restored to the part of its name, with the
      addresses parsed, the headers unmarked and the answers without their messages. */
  lemma RestoredIs(p: Message)
    ensures var m := Restored(p);
            && m.queueId == p.id && m.body == p.body && m.verdict == p.verdict && m.verdictMsg == p.verdictMsg
            && m.rejectScore == p.rejectScore && m.rejectScoreThreshold == p.rejectScoreThreshold
            && m.tempfailScore == p.tempfailScore && m.tempfailScoreThreshold == p.tempfailScoreThreshold
            && m.from == FromString(p.from, 64) && |m.rcpt| == |p.rcpt|
            && (forall i :: 0 <= i < |p.rcpt| ==> m.rcpt[i] == FromString(p.rcpt[i], 64))
            && |m.headers| == |p.headers|
            && (forall i :: 0 <= i < |p.headers| ==>
                  m.headers[i] == MailHeader(p.headers[i].key, p.headers[i].value, false, false))
            && |m.checkResults| == |p.checkResults|
            && forall i :: 0 <= i < |p.checkResults| ==> RestoresAnswer(p.checkResults[i], m.checkResults[i])
  {
    hide FromString;
  }

  // ----- There and back -----

  ghost predicate PreservesAnswer(a: Answer, r: Answer) {
    && r.moduleName == a.moduleName && r.action == a.action && r.determinants == a.determinants
    && r.score == PlusZero(a.score) && r.weightedScore == PlusZero(a.weightedScore)
    && r.duration == PlusZero(a.duration)
  }

  /** What a message is after it was saved and restored. */
  ghost predicate Preserves(m: Mail, r: Mail) {
    && r.queueId == m.queueId && r.from == m.from && r.rcpt == m.rcpt && r.body == m.body
    && r.verdict == m.verdict && r.verdictMsg == m.verdictMsg
    && r.rejectScore == PlusZero(m.rejectScore) && r.rejectScoreThreshold == PlusZero(m.rejectScoreThreshold)
    && r.tempfailScore == PlusZero(m.tempfailScore) && r.tempfailScoreThreshold == PlusZero(m.tempfailScoreThreshold)
    && |r.headers| == |m.headers|
    && (forall i :: 0 <= i < |m.headers| ==>
          r.headers[i].key == m.headers[i].key && r.headers[i].value == m.headers[i].value)
    && |r.checkResults| == |m.checkResults|
    && (forall i :: 0 <= i < |m.checkResults| ==> PreservesAnswer(m.checkResults[i], r.checkResults[i]))
  }

  /** No local part holds the separator, as in every parsed address. */
  predicate AddressesParsed(m: Mail) {
    AT !in m.from.local && forall i :: 0 <= i < |m.rcpt| ==> AT !in m.rcpt[i].local
  }

  lemma AddressesReturn(m: Mail, session: Session)
    ensures var r := Restored(PlusZeroMessage(Saved(m, session)));
            r.from == m.from && r.rcpt == m.rcpt <==> AddressesParsed(m)
  {
    var r := Restored(PlusZeroMessage(Saved(m, session)));
    PrintThenParseIff(m.from, AT);
    forall i | 0 <= i < |m.rcpt| ensures r.rcpt[i] == m.rcpt[i] <==> AT !in m.rcpt[i].local {
      PrintThenParseIff(m.rcpt[i], AT);
    }
    hide ToString, FromString;
    if r.rcpt == m.rcpt {
      assert forall i :: 0 <= i < |m.rcpt| ==> r.rcpt[i] == m.rcpt[i];
    }
  }

  lemma RestReturns(m: Mail, session: Session)
    ensures var r := Restored(PlusZeroMessage(Saved(m, session)));
            Preserves(m, r) <==> r.from == m.from && r.rcpt == m.rcpt
  {
    hide ToString, FromString;
    var p := PlusZeroMessage(Saved(m, session));
    forall i | 0 <= i < |m.checkResults|
      ensures PreservesAnswer(m.checkResults[i], Restored(p).checkResults[i])
    {
      assert p.checkResults[i] == PlusZeroCheck(SavedAnswer(m.queueId, m.checkResults[i]));
    }
  }

  /** The saved message fits in a buffer that an index of 63 bits can reach. */
  ghost predicate Encodable(m: Mail, session: Session) {
    |Encode(MessageMsg(Saved(m, session)))| < TWO_63
  }

  /** A message that is saved, marshalled, unmarshalled and turned back keeps its
      queue id, body, verdict, scores, header keys and values in order, answers,
      sender and recipients, up to -0.0, exactly when its addresses were parsed:
      when no local part holds an `@`. */
  lemma SaveRestoreIff(m: Mail, session: Session)
    ensures Encodable(m, session) ==>
              var d := Decode(Fresh(KMessage), Encode(MessageMsg(Saved(m, session))));
              && d.Ok? && d.value.MessageMsg?
              && (Preserves(m, Restored(d.value.message)) <==> AddressesParsed(m))
  {
    hide Decode, Encode, Preserves, AddressesParsed, Restored, Saved;
    if Encodable(m, session) {
      RoundTrip(MessageMsg(Saved(m, session)));
      AddressesReturn(m, session);
      RestReturns(m, session);
    }
  }

  ghost predicate Unmarked(hs: seq<MailHeader>) {
    forall i :: 0 <= i < |hs| ==> !hs[i].deleted && !hs[i].flagUnique
  }

  lemma MarksAreLost(m: Mail, session: Session)
    ensures Restored(PlusZeroMessage(Saved(m, session))).headers == m.headers <==> Unmarked(m.headers)
  {
    var r := Restored(PlusZeroMessage(Saved(m, session))).headers;
    forall i | 0 <= i < |r| ensures r[i] == m.headers[i] <==> !m.headers[i].deleted && !m.headers[i].flagUnique {
    }
  }

  /** The headers themselves come back from what was marshalled, marks and all, exactly
      when none is marked as deleted or unique: the marks are not stored. */
  lemma HeadersReturnIff(m: Mail, session: Session)
    ensures Restored(PlusZeroMessage(Saved(m, session))).headers == m.headers <==> Unmarked(m.headers)
    ensures Encodable(m, session) ==>
              var d := Decode(Fresh(KMessage), Encode(MessageMsg(Saved(m, session))));
              && d.Ok? && d.value.MessageMsg?
              && (Restored(d.value.message).headers == m.headers <==> Unmarked(m.headers))
  {
    hide Decode, Encode, Restored, Saved, Unmarked;
    MarksAreLost(m, session);
    if Encodable(m, session) {
      RoundTrip(MessageMsg(Saved(m, session)));
    }
  }

  /** And so a message that the cache took in is found by its message id, and its
      bytes lead back to it. */
  lemma CachedThenRestored(c: MessageCache.Cache, m: Mail, session: Session, queueId: string, msgId: string, now: int)
    requires MessageCache.Valid(c) && AddressesParsed(m)
    ensures var bytes := Encode(MessageMsg(Saved(m, session)));
            Encodable(m, session) && MessageCache.Fits(c, bytes) ==>
              var d := Decode(Fresh(KMessage), bytes);
              && MessageCache.ByMessageId(MessageCache.Stored(c, queueId, msgId, bytes, now), msgId) == bytes
              && d.Ok? && d.value.MessageMsg? && Preserves(m, Restored(d.value.message))
  {
    hide Decode, Encode, Preserves, AddressesParsed, Restored, Saved, Encodable;
    SaveRestoreIff(m, session);
    var bytes := Encode(MessageMsg(Saved(m, session)));
    if MessageCache.Fits(c, bytes) {
      MessageCache.StoredIsFound(c, queueId, msgId, bytes, now);
    }
  }
}
