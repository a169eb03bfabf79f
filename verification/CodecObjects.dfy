/** The message structs and their methods: Size, MarshalTo, Marshal and Unmarshal,
    each proved against the encoding and decoding of Schema (cluegetter.pb.go,
    lines 238-733, 763-1006, 1021-2778). */
module CodecObjects {
  import opened Wire
  import opened Schema
  import opened CodecLaws
  import opened CodecBuffers
  import opened Wrapping

  // ----- Emitting one field -----

  /** The tag bytes as the encoders write them: one byte up to number 15, else
      two; a second byte of 0 stands for none. */
  function TagLow(num: FieldNum, wireType: nat): int {
    var t := num * 8 + wireType;
    if t < 128 then t else t % 128 + 128
  }

  function TagHigh(num: FieldNum, wireType: nat): int {
    var t := num * 8 + wireType;
    if t < 128 then 0 else t / 128
  }

  ghost predicate IsTag(low: byte, high: byte, num: FieldNum, wireType: nat) {
    num < 2048 && wireType < 8 && low == TagLow(num, wireType) && high == TagHigh(num, wireType)
  }

  function TagBytes(low: byte, high: byte): Bytes {
    if high == 0 then [low] else [low, high]
  }

  lemma TagBytesAreTag(low: byte, high: byte, num: FieldNum, wireType: nat)
    requires IsTag(low, high, num, wireType)
    ensures TagBytes(low, high) == Tag(num, wireType)
  {
    var t := num * 8 + wireType;
    if t >= 128 {
      assert EncVarint(t / 128) == [t / 128];
    }
  }

  method PutTag(a: array<byte>, i: nat, low: byte, high: byte) returns (j: nat)
    requires i + |TagBytes(low, high)| <= a.Length
    modifies a
    ensures j == i + |TagBytes(low, high)|
    ensures a[..j] == old(a[..i]) + TagBytes(low, high)
    ensures forall x :: j <= x < a.Length ==> a[x] == old(a[x])
  {
    a[i] := low;
    j := i + 1;
    if high != 0 {
      a[j] := high;
      j := j + 1;
    }
    assert a[i..j] == TagBytes(low, high);
    assert a[..j] == a[..i] + a[i..j];
  }

  /** What an encoder is given: the bytes before the message, the groups of its
      fields and the bytes after the place where it will stand. */
  datatype Job = Job(base: Bytes, groups: Groups, rest: Bytes)

  /** The first k groups stand in `a` before index i, and nothing else changed. */
  ghost predicate Emitting(a: array<byte>, i: nat, job: Job, k: nat)
    reads a
  {
    && i <= a.Length && k <= |job.groups|
    && a[..i] == job.base + EncGroups(job.groups[..k])
    && var end := |job.base| + |EncGroups(job.groups)|;
       end <= a.Length && a[end..] == job.rest
  }

  /** The job of writing these groups at an offset of a buffer. */
  ghost predicate IsJob(job: Job, buffer: Bytes, off: nat) {
    off + |EncGroups(job.groups)| <= |buffer|
    && job.base == buffer[..off] && job.rest == buffer[off + |EncGroups(job.groups)|..]
  }

  lemma NewJob(a: array<byte>, off: nat, g: Groups) returns (job: Job)
    requires off + |EncGroups(g)| <= a.Length
    ensures job.groups == g && IsJob(job, a[..], off) && Emitting(a, off, job, 0)
  {
    assert EncGroups(g[..0]) == [];
    hide EncGroups;
    job := Job(a[..off], g, a[off + |EncGroups(g)|..]);
    assert a[..off] + [] == a[..off];
  }

  /** The bytes stand in the buffer at an offset, and the rest of it is as before. */
  ghost predicate Written(after: Bytes, before: Bytes, off: nat, bytes: Bytes) {
    off + |bytes| <= |before| && after == before[..off] + bytes + before[off + |bytes|..]
  }

  lemma JobDone(a: array<byte>, i: nat, job: Job, before: Bytes, off: nat)
    requires IsJob(job, before, off) && Emitting(a, i, job, |job.groups|)
    ensures i == off + |EncGroups(job.groups)|
    ensures Written(a[..], before, off, EncGroups(job.groups))
  {
    hide EncGroups;
    assert job.groups[..|job.groups|] == job.groups;
    assert a[..] == a[..i] + a[i..];
  }

  /** Where one more group of bytes goes when it is written at index i. */
  lemma EmitNext(a: array<byte>, i: nat, job: Job, k: nat)
    requires Emitting(a, i, job, k) && k < |job.groups|
    ensures i + |EncFields(job.groups[k])| <= |job.base| + |EncGroups(job.groups)| <= a.Length
    ensures a[..i] + EncFields(job.groups[k]) == job.base + EncGroups(job.groups[..k + 1])
  {
    hide EncGroups, EncFields;
    GroupsPrefix(job.groups, k);
    assert job.base + EncGroups(job.groups[..k]) + EncFields(job.groups[k])
        == job.base + (EncGroups(job.groups[..k]) + EncFields(job.groups[k]));
  }

  lemma EncNone()
    ensures EncFields([]) == []
  {
  }

  lemma EncOne(f: Field)
    ensures EncFields([f]) == EncField(f)
  {
    assert [f][..0] == [];
    assert [] + EncField(f) == EncField(f);
  }

  method EmitBytes(a: array<byte>, i: nat, low: byte, high: byte, s: Bytes,
                   ghost job: Job, ghost k: nat, ghost num: FieldNum)
    returns (j: nat)
    requires Emitting(a, i, job, k) && k < |job.groups| && job.groups[k] == OptBytes(num, s)
    requires IsTag(low, high, num, 2)
    modifies a
    ensures Emitting(a, j, job, k + 1)
  {
    hide EncGroups, EncFields, EncVarint, LittleEndian;
    EmitNext(a, i, job, k);
    EncNone();
    ghost var before, end := a[..i], |job.base| + |EncGroups(job.groups)|;
    j := i;
    if |s| > 0 {
      EncOne(BytesF(num, s));
      TagBytesAreTag(low, high, num, 2);
      j := PutTag(a, j, low, high);
      j := EncodeVarint(a, j, |s|);
      j := Copy(a, j, s);
      assert a[..j] == before + EncField(BytesF(num, s));
    } else {
      assert before + [] == before;
    }
    assert a[end..] == old(a[end..]);
  }

  method EmitVarint(a: array<byte>, i: nat, low: byte, high: byte, v: uint64,
                    ghost job: Job, ghost k: nat, ghost num: FieldNum)
    returns (j: nat)
    requires Emitting(a, i, job, k) && k < |job.groups| && job.groups[k] == OptVarint(num, v)
    requires IsTag(low, high, num, 0)
    modifies a
    ensures Emitting(a, j, job, k + 1)
  {
    hide EncGroups, EncFields, EncVarint, LittleEndian;
    EmitNext(a, i, job, k);
    EncNone();
    ghost var before, end := a[..i], |job.base| + |EncGroups(job.groups)|;
    j := i;
    if v != 0 {
      EncOne(VarintF(num, v));
      TagBytesAreTag(low, high, num, 0);
      j := PutTag(a, j, low, high);
      j := EncodeVarint(a, j, v);
      assert a[..j] == before + EncField(VarintF(num, v));
    } else {
      assert before + [] == before;
    }
    assert a[end..] == old(a[end..]);
  }

  method EmitDouble(a: array<byte>, i: nat, low: byte, high: byte, bits: uint64,
                    ghost job: Job, ghost k: nat, ghost num: FieldNum)
    returns (j: nat)
    requires Emitting(a, i, job, k) && k < |job.groups| && job.groups[k] == OptDouble(num, bits)
    requires IsTag(low, high, num, 1)
    modifies a
    ensures Emitting(a, j, job, k + 1)
  {
    hide EncGroups, EncFields, EncVarint, LittleEndian;
    EmitNext(a, i, job, k);
    EncNone();
    ghost var before, end := a[..i], |job.base| + |EncGroups(job.groups)|;
    j := i;
    if NonZero(bits) {
      EncOne(Fixed64F(num, bits));
      TagBytesAreTag(low, high, num, 1);
      j := PutTag(a, j, low, high);
      j := EncodeFixed64(a, j, bits);
      assert a[..j] == before + EncField(Fixed64F(num, bits));
    } else {
      assert before + [] == before;
    }
    assert a[end..] == old(a[end..]);
  }

  // ----- One pass of the decoding loop -----

  lemma DecodeEnd(m: Msg, data: Bytes)
    requires |data| < MAX_LENGTH
    ensures DecodeWrapped(m, data, |data|) == Ok(m)
  {
  }

  /** What one pass leaves to decode. */
  lemma DecodeUnfold(m: Msg, data: Bytes, i: nat)
    requires i < |data| < MAX_LENGTH
    ensures var item := ReadItemWrapped(KindOf(m), data, i);
            if item.Err? then DecodeWrapped(m, data, i) == Err(item.error)
            else
              var next := if item.value.0.Some? then ApplyWrapped(m, item.value.0.value) else Ok(m);
              DecodeWrapped(m, data, i)
              == if next.Ok? then DecodeWrapped(next.value, data, i + item.value.1) else Err(next.error)
  {
    hide ReadItemWrapped, ApplyWrapped;
  }

  lemma ApplyScalar(m: Msg, f: Field)
    requires Knows(KindOf(m), f) && PayloadSize(f) < MAX_LENGTH && Sub(m, f.num).None?
    ensures ApplyWrapped(m, f) == Apply(m, f)
  {
  }

  /** A nested field is decoded into its own message, which takes its place. */
  lemma ApplyNested(m: Msg, num: FieldNum, s: Bytes)
    requires Expected(KindOf(m), num) == Some(2) && |s| < MAX_LENGTH && Sub(m, num).Some?
    ensures var r := DecodeWrapped(Sub(m, num).value, s, 0);
            ApplyWrapped(m, BytesF(num, s)) == if r.Ok? then Ok(Put(m, num, r.value)) else Err(r.error)
  {
    hide DecodeWrapped, Sub, Put;
  }

  /** A field that is known as delimited holds bytes. */
  lemma Delimits(k: Kind, f: Field)
    requires Knows(k, f) && Expected(k, f.num) == Some(2)
    ensures f == BytesF(f.num, f.s)
  {
  }

  // ----- Adding one field to a size -----

  function TagSize(num: FieldNum, wireType: nat): nat {
    if num * 8 + wireType < 128 then 1 else 2
  }

  lemma TagSizeIs(num: FieldNum, wireType: nat)
    requires num < 2048 && wireType < 8
    ensures TagSize(num, wireType) == |Tag(num, wireType)|
  {
    TagBytesAreTag(TagLow(num, wireType), TagHigh(num, wireType), num, wireType);
  }

  lemma SizeOfNothing(g: Groups)
    ensures |EncGroups(g[..0])| == 0
  {
  }

  method AddBytes(n: nat, tagSize: nat, s: Bytes, ghost g: Groups, ghost k: nat, ghost num: FieldNum)
    returns (r: nat)
    requires k < |g| && n == |EncGroups(g[..k])| && g[k] == OptBytes(num, s)
    requires tagSize == TagSize(num, 2) && num < 2048
    ensures r == |EncGroups(g[..k + 1])|
  {
    GroupsPrefix(g, k);
    r := n;
    if |s| > 0 {
      EncOne(BytesF(num, s));
      TagSizeIs(num, 2);
      var v := Sov(|s|);
      r := n + tagSize + |s| + v;
    }
  }

  method AddVarint(n: nat, tagSize: nat, v: uint64, ghost g: Groups, ghost k: nat, ghost num: FieldNum)
    returns (r: nat)
    requires k < |g| && n == |EncGroups(g[..k])| && g[k] == OptVarint(num, v)
    requires tagSize == TagSize(num, 0) && num < 2048
    ensures r == |EncGroups(g[..k + 1])|
  {
    GroupsPrefix(g, k);
    r := n;
    if v != 0 {
      EncOne(VarintF(num, v));
      TagSizeIs(num, 0);
      var l := Sov(v);
      r := n + tagSize + l;
    }
  }

  method AddDouble(n: nat, tagSize: nat, bits: uint64, ghost g: Groups, ghost k: nat, ghost num: FieldNum)
    returns (r: nat)
    requires k < |g| && n == |EncGroups(g[..k])| && g[k] == OptDouble(num, bits)
    requires tagSize == TagSize(num, 1) && num < 2048
    ensures r == |EncGroups(g[..k + 1])|
  {
    GroupsPrefix(g, k);
    r := n;
    if NonZero(bits) {
      EncOne(Fixed64F(num, bits));
      TagSizeIs(num, 1);
      r := n + tagSize + 8;
    }
  }

  /** Inside group k, the first e of its fields stand in `a` before index i. */
  ghost predicate EmittingPart(a: array<byte>, i: nat, job: Job, k: nat, e: nat)
    reads a
  {
    && i <= a.Length && k < |job.groups| && e <= |job.groups[k]|
    && a[..i] == job.base + EncGroups(job.groups[..k]) + EncFields(job.groups[k][..e])
    && var end := |job.base| + |EncGroups(job.groups)|;
       end <= a.Length && a[end..] == job.rest
  }

  /** Proto_Message_Header */
  class ProtoHeader {
    var key: Bytes
    var value: Bytes

    ghost function View(): Header
      reads this
    {
      Header(key, value)
    }

    constructor ()
      ensures View() == NEW_HEADER
    {
      key := [];
      value := [];
    }

    method Size() returns (n: nat)
      ensures n == |EncGroups(HeaderGroups(View()))|
    {
      hide EncGroups, EncFields, OptBytes, OptVarint, OptDouble;
      ghost var g := HeaderGroups(View());
      SizeOfNothing(g);
      n := 0;
      n := AddBytes(n, 1, key, g, 0, 1);
      n := AddBytes(n, 1, value, g, 1, 2);
      assert g[..2] == g;
    }

    method MarshalTo(a: array<byte>, off: nat) returns (n: nat)
      requires off + |EncGroups(HeaderGroups(View()))| <= a.Length
      modifies a
      ensures n == |EncGroups(HeaderGroups(View()))|
      ensures Written(a[..], old(a[..]), off, EncGroups(HeaderGroups(View())))
    {
      hide EncGroups, EncFields, OptBytes, OptVarint, OptDouble, Emitting, EmittingPart, IsJob, Written;
      ghost var job := NewJob(a, off, HeaderGroups(View()));
      var i := off;
      i := EmitBytes(a, i, 0x0a, 0, key, job, 0, 1);
      i := EmitBytes(a, i, 0x12, 0, value, job, 1, 2);
      JobDone(a, i, job, old(a[..]), off);
      n := i - off;
    }

    /** The switch of Unmarshal. */
    method Assign(f: Field)
      requires Knows(KHeader, f)
      modifies this
      ensures View() == ApplyHeader(old(View()), f)
    {
      match f.num {
        case 1 => key := f.s;
        case _ => value := f.s;
      }
    }

    method Unmarshal(data: Bytes) returns (err: Option<Error>)
      requires |data| < MAX_LENGTH
      modifies this
      ensures match DecodeWrapped(HeaderMsg(old(View())), data, 0)
              case Ok(m) => err.None? && View() == m.header
              case Err(e) => err == Some(e)
    {
      hide DecodeWrapped, ReadItemWrapped;
      ghost var start := HeaderMsg(View());
      var i := 0;
      while i < |data|
        invariant i <= |data|
        invariant DecodeWrapped(start, data, 0) == DecodeWrapped(HeaderMsg(View()), data, i)
      {
        var item := ReadItemAt(KHeader, data, i);
        DecodeUnfold(HeaderMsg(View()), data, i);
        if item.Err? {
          return Some(item.error);
        }
        var (f, n) := item.value;
        if f.Some? {
          Assign(f.value);
        }
        i := i + n;
      }
      DecodeEnd(HeaderMsg(View()), data);
      return None;
    }
  }

  /** Proto_Message_CheckResult */
  class ProtoCheckResult {
    var messageId: Bytes
    var moduleName: Bytes
    var verdict: int32
    var score: uint64
    var weightedScore: uint64
    var duration: uint64
    var determinants: Bytes

    ghost function View(): CheckResult
      reads this
    {
      CheckResult(messageId, moduleName, verdict, score, weightedScore, duration, determinants)
    }

    constructor ()
      ensures View() == NEW_CHECK
    {
      messageId := [];
      moduleName := [];
      verdict := 0;
      score := 0;
      weightedScore := 0;
      duration := 0;
      determinants := [];
    }

    method Size() returns (n: nat)
      ensures n == |EncGroups(CheckGroups(View()))|
    {
      hide EncGroups, EncFields, OptBytes, OptVarint, OptDouble;
      ghost var g := CheckGroups(View());
      SizeOfNothing(g);
      n := 0;
      n := AddBytes(n, 1, messageId, g, 0, 1);
      n := AddBytes(n, 1, moduleName, g, 1, 2);
      n := AddVarint(n, 1, FromInt32(verdict), g, 2, 3);
      n := AddDouble(n, 1, score, g, 3, 4);
      n := AddDouble(n, 1, weightedScore, g, 4, 5);
      n := AddDouble(n, 1, duration, g, 5, 6);
      n := AddBytes(n, 1, determinants, g, 6, 7);
      assert g[..7] == g;
    }

    method MarshalTo(a: array<byte>, off: nat) returns (n: nat)
      requires off + |EncGroups(CheckGroups(View()))| <= a.Length
      modifies a
      ensures n == |EncGroups(CheckGroups(View()))|
      ensures Written(a[..], old(a[..]), off, EncGroups(CheckGroups(View())))
    {
      hide EncGroups, EncFields, OptBytes, OptVarint, OptDouble, Emitting, EmittingPart, IsJob, Written;
      ghost var job := NewJob(a, off, CheckGroups(View()));
      var i := off;
      i := EmitBytes(a, i, 0x0a, 0, messageId, job, 0, 1);
      i := EmitBytes(a, i, 0x12, 0, moduleName, job, 1, 2);
      i := EmitVarint(a, i, 0x18, 0, FromInt32(verdict), job, 2, 3);
      i := EmitDouble(a, i, 0x21, 0, score, job, 3, 4);
      i := EmitDouble(a, i, 0x29, 0, weightedScore, job, 4, 5);
      i := EmitDouble(a, i, 0x31, 0, duration, job, 5, 6);
      i := EmitBytes(a, i, 0x3a, 0, determinants, job, 6, 7);
      JobDone(a, i, job, old(a[..]), off);
      n := i - off;
    }

    /** The switch of Unmarshal. */
    method Assign(f: Field)
      requires Knows(KCheck, f)
      modifies this
      ensures View() == ApplyCheck(old(View()), f)
    {
      match f.num {
        case 1 => messageId := f.s;
        case 2 => moduleName := f.s;
        case 3 => verdict := ToInt32(f.v);
        case 4 => score := f.v;
        case 5 => weightedScore := f.v;
        case 6 => duration := f.v;
        case _ => determinants := f.s;
      }
    }

    method Unmarshal(data: Bytes) returns (err: Option<Error>)
      requires |data| < MAX_LENGTH
      modifies this
      ensures match DecodeWrapped(CheckMsg(old(View())), data, 0)
              case Ok(m) => err.None? && View() == m.check
              case Err(e) => err == Some(e)
    {
      hide DecodeWrapped, ReadItemWrapped;
      ghost var start := CheckMsg(View());
      var i := 0;
      while i < |data|
        invariant i <= |data|
        invariant DecodeWrapped(start, data, 0) == DecodeWrapped(CheckMsg(View()), data, i)
      {
        var item := ReadItemAt(KCheck, data, i);
        DecodeUnfold(CheckMsg(View()), data, i);
        if item.Err? {
          return Some(item.error);
        }
        var (f, n) := item.value;
        if f.Some? {
          Assign(f.value);
        }
        i := i + n;
      }
      DecodeEnd(CheckMsg(View()), data);
      return None;
    }
  }

  /** Proto_Session */
  class ProtoSession {
    var instanceId: uint64
    var id: Bytes
    var timeStart: uint64
    var timeEnd: uint64
    var saslUsername: Bytes
    var saslSender: Bytes
    var saslMethod: Bytes
    var certIssuer: Bytes
    var certSubject: Bytes
    var cipherBits: uint32
    var cipher: Bytes
    var tlsVersion: Bytes
    var ip: Bytes
    var reverseDns: Bytes
    var hostname: Bytes
    var helo: Bytes
    var mtaHostName: Bytes
    var mtaDaemonName: Bytes

    ghost function View(): Session
      reads this
    {
      Session(instanceId, id, timeStart, timeEnd, saslUsername, saslSender, saslMethod, certIssuer, certSubject,
              cipherBits, cipher, tlsVersion, ip, reverseDns, hostname, helo, mtaHostName, mtaDaemonName)
    }

    constructor ()
      ensures View() == NEW_SESSION
    {
      instanceId := 0;
      id := [];
      timeStart := 0;
      timeEnd := 0;
      saslUsername := [];
      saslSender := [];
      saslMethod := [];
      certIssuer := [];
      certSubject := [];
      cipherBits := 0;
      cipher := [];
      tlsVersion := [];
      ip := [];
      reverseDns := [];
      hostname := [];
      helo := [];
      mtaHostName := [];
      mtaDaemonName := [];
    }

    method SizeFirst(m: nat, ghost g: Groups) returns (n: nat)
      requires g == SessionGroups(View()) && m == |EncGroups(g[..0])|
      ensures n == |EncGroups(g[..6])|
    {
      hide EncGroups, EncFields, OptBytes, OptVarint, OptDouble;
      n := m;
      n := AddVarint(n, 1, instanceId, g, 0, 1);
      n := AddBytes(n, 1, id, g, 1, 2);
      n := AddVarint(n, 1, timeStart, g, 2, 3);
      n := AddVarint(n, 1, timeEnd, g, 3, 4);
      n := AddBytes(n, 1, saslUsername, g, 4, 5);
      n := AddBytes(n, 1, saslSender, g, 5, 6);
    }

    method SizeSecond(m: nat, ghost g: Groups) returns (n: nat)
      requires g == SessionGroups(View()) && m == |EncGroups(g[..6])|
      ensures n == |EncGroups(g[..12])|
    {
      hide EncGroups, EncFields, OptBytes, OptVarint, OptDouble;
      n := m;
      n := AddBytes(n, 1, saslMethod, g, 6, 7);
      n := AddBytes(n, 1, certIssuer, g, 7, 8);
      n := AddBytes(n, 1, certSubject, g, 8, 9);
      n := AddVarint(n, 1, cipherBits, g, 9, 10);
      n := AddBytes(n, 1, cipher, g, 10, 11);
      n := AddBytes(n, 1, tlsVersion, g, 11, 12);
    }

    method SizeThird(m: nat, ghost g: Groups) returns (n: nat)
      requires g == SessionGroups(View()) && m == |EncGroups(g[..12])|
      ensures n == |EncGroups(g[..18])|
    {
      hide EncGroups, EncFields, OptBytes, OptVarint, OptDouble;
      n := m;
      n := AddBytes(n, 1, ip, g, 12, 13);
      n := AddBytes(n, 1, reverseDns, g, 13, 14);
      n := AddBytes(n, 1, hostname, g, 14, 15);
      n := AddBytes(n, 2, helo, g, 15, 16);
      n := AddBytes(n, 2, mtaHostName, g, 16, 17);
      n := AddBytes(n, 2, mtaDaemonName, g, 17, 18);
    }

    method Size() returns (n: nat)
      ensures n == |EncGroups(SessionGroups(View()))|
    {
      hide EncGroups, EncFields, OptBytes, OptVarint, OptDouble;
      ghost var g := SessionGroups(View());
      SizeOfNothing(g);
      n := SizeFirst(0, g);
      n := SizeSecond(n, g);
      n := SizeThird(n, g);
      assert g[..18] == g;
    }

    method EmitFirst(a: array<byte>, at: nat, ghost job: Job) returns (i: nat)
      requires Emitting(a, at, job, 0) && job.groups == SessionGroups(View())
      modifies a
      ensures Emitting(a, i, job, 6)
    {
      hide EncGroups, EncFields, OptBytes, OptVarint, OptDouble, Emitting, EmittingPart;
      i := at;
      i := EmitVarint(a, i, 0x08, 0, instanceId, job, 0, 1);
      i := EmitBytes(a, i, 0x12, 0, id, job, 1, 2);
      i := EmitVarint(a, i, 0x18, 0, timeStart, job, 2, 3);
      i := EmitVarint(a, i, 0x20, 0, timeEnd, job, 3, 4);
      i := EmitBytes(a, i, 0x2a, 0, saslUsername, job, 4, 5);
      i := EmitBytes(a, i, 0x32, 0, saslSender, job, 5, 6);
    }

    method EmitSecond(a: array<byte>, at: nat, ghost job: Job) returns (i: nat)
      requires Emitting(a, at, job, 6) && job.groups == SessionGroups(View())
      modifies a
      ensures Emitting(a, i, job, 12)
    {
      hide EncGroups, EncFields, OptBytes, OptVarint, OptDouble, Emitting, EmittingPart;
      i := at;
      i := EmitBytes(a, i, 0x3a, 0, saslMethod, job, 6, 7);
      i := EmitBytes(a, i, 0x42, 0, certIssuer, job, 7, 8);
      i := EmitBytes(a, i, 0x4a, 0, certSubject, job, 8, 9);
      i := EmitVarint(a, i, 0x50, 0, cipherBits, job, 9, 10);
      i := EmitBytes(a, i, 0x5a, 0, cipher, job, 10, 11);
      i := EmitBytes(a, i, 0x62, 0, tlsVersion, job, 11, 12);
    }

    method EmitThird(a: array<byte>, at: nat, ghost job: Job) returns (i: nat)
      requires Emitting(a, at, job, 12) && job.groups == SessionGroups(View())
      modifies a
      ensures Emitting(a, i, job, 18)
    {
      hide EncGroups, EncFields, OptBytes, OptVarint, OptDouble, Emitting, EmittingPart;
      i := at;
      i := EmitBytes(a, i, 0x6a, 0, ip, job, 12, 13);
      i := EmitBytes(a, i, 0x72, 0, reverseDns, job, 13, 14);
      i := EmitBytes(a, i, 0x7a, 0, hostname, job, 14, 15);
      i := EmitBytes(a, i, 0x82, 0x01, helo, job, 15, 16);
      i := EmitBytes(a, i, 0x8a, 0x01, mtaHostName, job, 16, 17);
      i := EmitBytes(a, i, 0x92, 0x01, mtaDaemonName, job, 17, 18);
    }

    method MarshalTo(a: array<byte>, off: nat) returns (n: nat)
      requires off + |EncGroups(SessionGroups(View()))| <= a.Length
      modifies a
      ensures n == |EncGroups(SessionGroups(View()))|
      ensures Written(a[..], old(a[..]), off, EncGroups(SessionGroups(View())))
    {
      hide EncGroups, EncFields, OptBytes, OptVarint, OptDouble, Emitting, EmittingPart, IsJob, Written;
      ghost var job := NewJob(a, off, SessionGroups(View()));
      var i := EmitFirst(a, off, job);
      i := EmitSecond(a, i, job);
      i := EmitThird(a, i, job);
      JobDone(a, i, job, old(a[..]), off);
      n := i - off;
    }

    method AssignFirst(f: Field)
      requires Knows(KSession, f) && 1 <= f.num <= 4
      modifies this
      ensures View() == ApplySession(old(View()), f)
    {
      match f.num {
        case 1 => instanceId := f.v;
        case 2 => id := f.s;
        case 3 => timeStart := f.v;
        case _ => timeEnd := f.v;
      }
    }

    method AssignSecond(f: Field)
      requires Knows(KSession, f) && 5 <= f.num <= 8
      modifies this
      ensures View() == ApplySession(old(View()), f)
    {
      match f.num {
        case 5 => saslUsername := f.s;
        case 6 => saslSender := f.s;
        case 7 => saslMethod := f.s;
        case _ => certIssuer := f.s;
      }
    }

    method AssignThird(f: Field)
      requires Knows(KSession, f) && 9 <= f.num <= 11
      modifies this
      ensures View() == ApplySession(old(View()), f)
    {
      match f.num {
        case 9 => certSubject := f.s;
        case 10 => cipherBits := f.v % TWO_32;
        case _ => cipher := f.s;
      }
    }

    method AssignFourth(f: Field)
      requires Knows(KSession, f) && 12 <= f.num <= 14
      modifies this
      ensures View() == ApplySession(old(View()), f)
    {
      match f.num {
        case 12 => tlsVersion := f.s;
        case 13 => ip := f.s;
        case _ => reverseDns := f.s;
      }
    }

    method AssignFifth(f: Field)
      requires Knows(KSession, f) && 15 <= f.num <= 18
      modifies this
      ensures View() == ApplySession(old(View()), f)
    {
      match f.num {
        case 15 => hostname := f.s;
        case 16 => helo := f.s;
        case 17 => mtaHostName := f.s;
        case _ => mtaDaemonName := f.s;
      }
    }

    /** The switch of Unmarshal. */
    method Assign(f: Field)
      requires Knows(KSession, f)
      modifies this
      ensures View() == ApplySession(old(View()), f)
    {
      hide ApplySession;
      if f.num <= 4 {
        AssignFirst(f);
      } else if f.num <= 8 {
        AssignSecond(f);
      } else if f.num <= 11 {
        AssignThird(f);
      } else if f.num <= 14 {
        AssignFourth(f);
      } else {
        AssignFifth(f);
      }
    }

    method Unmarshal(data: Bytes) returns (err: Option<Error>)
      requires |data| < MAX_LENGTH
      modifies this
      ensures match DecodeWrapped(SessionMsg(old(View())), data, 0)
              case Ok(m) => err.None? && View() == m.session
              case Err(e) => err == Some(e)
    {
      hide DecodeWrapped, ReadItemWrapped;
      ghost var start := SessionMsg(View());
      var i := 0;
      while i < |data|
        invariant i <= |data|
        invariant DecodeWrapped(start, data, 0) == DecodeWrapped(SessionMsg(View()), data, i)
      {
        var item := ReadItemAt(KSession, data, i);
        DecodeUnfold(SessionMsg(View()), data, i);
        if item.Err? {
          return Some(item.error);
        }
        var (f, n) := item.value;
        if f.Some? {
          Assign(f.value);
        }
        i := i + n;
      }
      DecodeEnd(SessionMsg(View()), data);
      return None;
    }
  }

  /** Rpc__Bayes_Learn_Message_Id */
  class ProtoLearnId {
    var isSpam: bool
    var messageId: Bytes
    var host: Bytes
    var reporter: Bytes
    var reason: Bytes

    ghost function View(): LearnId
      reads this
    {
      LearnId(isSpam, messageId, host, reporter, reason)
    }

    constructor ()
      ensures View() == NEW_LEARN_ID
    {
      isSpam := false;
      messageId := [];
      host := [];
      reporter := [];
      reason := [];
    }

    method Size() returns (n: nat)
      ensures n == |EncGroups(LearnIdGroups(View()))|
    {
      hide EncGroups, EncFields, OptBytes, OptVarint, OptDouble;
      ghost var g := LearnIdGroups(View());
      SizeOfNothing(g);
      n := 0;
      n := AddVarint(n, 1, BoolBit(isSpam), g, 0, 1);
      n := AddBytes(n, 1, messageId, g, 1, 2);
      n := AddBytes(n, 2, host, g, 2, 17);
      n := AddBytes(n, 2, reporter, g, 3, 18);
      n := AddBytes(n, 2, reason, g, 4, 19);
      assert g[..5] == g;
    }

    method MarshalTo(a: array<byte>, off: nat) returns (n: nat)
      requires off + |EncGroups(LearnIdGroups(View()))| <= a.Length
      modifies a
      ensures n == |EncGroups(LearnIdGroups(View()))|
      ensures Written(a[..], old(a[..]), off, EncGroups(LearnIdGroups(View())))
    {
      hide EncGroups, EncFields, OptBytes, OptVarint, OptDouble, Emitting, EmittingPart, IsJob, Written;
      ghost var job := NewJob(a, off, LearnIdGroups(View()));
      var i := off;
      i := EmitVarint(a, i, 0x08, 0, BoolBit(isSpam), job, 0, 1);
      i := EmitBytes(a, i, 0x12, 0, messageId, job, 1, 2);
      i := EmitBytes(a, i, 0x8a, 0x01, host, job, 2, 17);
      i := EmitBytes(a, i, 0x92, 0x01, reporter, job, 3, 18);
      i := EmitBytes(a, i, 0x9a, 0x01, reason, job, 4, 19);
      JobDone(a, i, job, old(a[..]), off);
      n := i - off;
    }

    /** The switch of Unmarshal. */
    method Assign(f: Field)
      requires Knows(KLearnId, f)
      modifies this
      ensures View() == ApplyLearnId(old(View()), f)
    {
      match f.num {
        case 1 => isSpam := f.v != 0;
        case 2 => messageId := f.s;
        case 17 => host := f.s;
        case 18 => reporter := f.s;
        case _ => reason := f.s;
      }
    }

    method Unmarshal(data: Bytes) returns (err: Option<Error>)
      requires |data| < MAX_LENGTH
      modifies this
      ensures match DecodeWrapped(LearnIdMsg(old(View())), data, 0)
              case Ok(m) => err.None? && View() == m.learnId
              case Err(e) => err == Some(e)
    {
      hide DecodeWrapped, ReadItemWrapped;
      ghost var start := LearnIdMsg(View());
      var i := 0;
      while i < |data|
        invariant i <= |data|
        invariant DecodeWrapped(start, data, 0) == DecodeWrapped(LearnIdMsg(View()), data, i)
      {
        var item := ReadItemAt(KLearnId, data, i);
        DecodeUnfold(LearnIdMsg(View()), data, i);
        if item.Err? {
          return Some(item.error);
        }
        var (f, n) := item.value;
        if f.Some? {
          Assign(f.value);
        }
        i := i + n;
      }
      DecodeEnd(LearnIdMsg(View()), data);
      return None;
    }
  }

  // ----- Nested and repeated fields -----

  lemma PartStart(a: array<byte>, i: nat, job: Job, k: nat)
    requires Emitting(a, i, job, k) && k < |job.groups|
    ensures EmittingPart(a, i, job, k, 0)
  {
    hide EncGroups;
    assert job.groups[k][..0] == [];
    assert a[..i] + [] == a[..i];
  }

  lemma PartEnd(a: array<byte>, i: nat, job: Job, k: nat)
    requires k < |job.groups| && EmittingPart(a, i, job, k, |job.groups[k]|)
    ensures Emitting(a, i, job, k + 1)
  {
    hide EncGroups, EncFields;
    GroupsPrefix(job.groups, k);
    assert job.groups[k][..|job.groups[k]|] == job.groups[k];
  }

  lemma {:induction false} FieldsPrefix(fs: seq<Field>, e: nat)
    requires e <= |fs|
    ensures |EncFields(fs[..e])| <= |EncFields(fs)|
    ensures e < |fs| ==> EncFields(fs[..e + 1]) == EncFields(fs[..e]) + EncField(fs[e])
    ensures e < |fs| ==> |EncFields(fs[..e])| + |EncField(fs[e])| <= |EncFields(fs)|
    decreases |fs| - e
  {
    hide EncField;
    if e < |fs| {
      FieldsPrefix(fs, e + 1);
      assert fs[..e + 1][..e] == fs[..e];
    } else {
      assert fs[..e] == fs;
    }
  }

  /** Tag and length of a nested message stand in `a`; its bytes come next. */
  ghost predicate Headed(a: array<byte>, i: nat, job: Job, k: nat, e: nat, payload: Bytes)
    reads a
  {
    && i <= a.Length && k < |job.groups| && e < |job.groups[k]|
    && a[..i] + payload == job.base + EncGroups(job.groups[..k]) + EncFields(job.groups[k][..e + 1])
    && var end := |job.base| + |EncGroups(job.groups)|;
       i + |payload| <= end <= a.Length && a[end..] == job.rest
  }

  method EmitHead(a: array<byte>, i: nat, low: byte, high: byte, length: nat,
                  ghost job: Job, ghost k: nat, ghost e: nat, ghost num: FieldNum, ghost payload: Bytes)
    returns (j: nat)
    requires EmittingPart(a, i, job, k, e) && e < |job.groups[k]|
    requires job.groups[k][e] == BytesF(num, payload) && length == |payload|
    requires IsTag(low, high, num, 2)
    modifies a
    ensures Headed(a, j, job, k, e, payload)
  {
    hide EncGroups, EncFields, EncVarint;
    ghost var before, end := a[..i], |job.base| + |EncGroups(job.groups)|;
    GroupsPrefix(job.groups, k);
    FieldsPrefix(job.groups[k], e);
    TagBytesAreTag(low, high, num, 2);
    j := PutTag(a, i, low, high);
    j := EncodeVarint(a, j, length);
    assert a[..j] + payload == before + EncField(BytesF(num, payload));
    assert a[end..] == old(a[end..]);
  }

  /** Where a nested message landed. */
  lemma Placed(a: array<byte>, was: Bytes, off: nat, payload: Bytes, end: nat)
    requires Written(a[..], was, off, payload) && off + |payload| <= end <= a.Length
    ensures a[..off + |payload|] == was[..off] + payload && a[end..] == was[end..]
  {
  }

  method AddPart(n: nat, tagSize: nat, length: nat, ghost g: Groups, ghost k: nat, ghost e: nat,
                 ghost num: FieldNum, ghost payload: Bytes)
    returns (r: nat)
    requires k < |g| && e < |g[k]| && n == |EncGroups(g[..k])| + |EncFields(g[k][..e])|
    requires g[k][e] == BytesF(num, payload) && length == |payload|
    requires tagSize == TagSize(num, 2) && num < 2048
    ensures r == |EncGroups(g[..k])| + |EncFields(g[k][..e + 1])|
  {
    FieldsPrefix(g[k], e);
    TagSizeIs(num, 2);
    var v := Sov(length);
    r := n + tagSize + length + v;
  }

  lemma SizePartStart(g: Groups, k: nat)
    requires k < |g|
    ensures |EncFields(g[k][..0])| == 0
  {
  }

  lemma SizePartEnd(g: Groups, k: nat)
    requires k < |g|
    ensures |EncGroups(g[..k + 1])| == |EncGroups(g[..k])| + |EncFields(g[k][..|g[k]|])|
  {
    GroupsPrefix(g, k);
    assert g[k][..|g[k]|] == g[k];
  }

  method EmitString(a: array<byte>, i: nat, low: byte, high: byte, s: Bytes,
                    ghost job: Job, ghost k: nat, ghost e: nat, ghost num: FieldNum)
    returns (j: nat)
    requires EmittingPart(a, i, job, k, e) && e < |job.groups[k]| && job.groups[k][e] == BytesF(num, s)
    requires IsTag(low, high, num, 2)
    modifies a
    ensures EmittingPart(a, j, job, k, e + 1)
  {
    hide EncGroups, EncFields;
    ghost var end := |job.base| + |EncGroups(job.groups)|;
    j := EmitHead(a, i, low, high, |s|, job, k, e, num, s);
    ghost var rest := a[end..];
    j := Copy(a, j, s);
    assert a[end..] == rest;
  }

  method EmitSession(a: array<byte>, i: nat, low: byte, high: byte, m: ProtoSession,
                    ghost job: Job, ghost k: nat, ghost e: nat, ghost num: FieldNum)
    returns (j: nat)
    requires EmittingPart(a, i, job, k, e) && e < |job.groups[k]|
    requires job.groups[k][e] == BytesF(num, EncGroups(SessionGroups(m.View())))
    requires IsTag(low, high, num, 2)
    modifies a
    ensures EmittingPart(a, j, job, k, e + 1)
  {
    hide EncGroups, EncFields, SessionGroups;
    ghost var end := |job.base| + |EncGroups(job.groups)|;
    var size := m.Size();
    ghost var payload := EncGroups(SessionGroups(m.View()));
    j := EmitHead(a, i, low, high, size, job, k, e, num, payload);
    ghost var was := a[..];
    var n := m.MarshalTo(a, j);
    Placed(a, was, j, payload, end);
    j := j + n;
  }

  method EmitHeader(a: array<byte>, i: nat, low: byte, high: byte, m: ProtoHeader,
                    ghost job: Job, ghost k: nat, ghost e: nat, ghost num: FieldNum)
    returns (j: nat)
    requires EmittingPart(a, i, job, k, e) && e < |job.groups[k]|
    requires job.groups[k][e] == BytesF(num, EncGroups(HeaderGroups(m.View())))
    requires IsTag(low, high, num, 2)
    modifies a
    ensures EmittingPart(a, j, job, k, e + 1)
  {
    hide EncGroups, EncFields, HeaderGroups;
    ghost var end := |job.base| + |EncGroups(job.groups)|;
    var size := m.Size();
    ghost var payload := EncGroups(HeaderGroups(m.View()));
    j := EmitHead(a, i, low, high, size, job, k, e, num, payload);
    ghost var was := a[..];
    var n := m.MarshalTo(a, j);
    Placed(a, was, j, payload, end);
    j := j + n;
  }

  method EmitCheckResult(a: array<byte>, i: nat, low: byte, high: byte, m: ProtoCheckResult,
                    ghost job: Job, ghost k: nat, ghost e: nat, ghost num: FieldNum)
    returns (j: nat)
    requires EmittingPart(a, i, job, k, e) && e < |job.groups[k]|
    requires job.groups[k][e] == BytesF(num, EncGroups(CheckGroups(m.View())))
    requires IsTag(low, high, num, 2)
    modifies a
    ensures EmittingPart(a, j, job, k, e + 1)
  {
    hide EncGroups, EncFields, CheckGroups;
    ghost var end := |job.base| + |EncGroups(job.groups)|;
    var size := m.Size();
    ghost var payload := EncGroups(CheckGroups(m.View()));
    j := EmitHead(a, i, low, high, size, job, k, e, num, payload);
    ghost var was := a[..];
    var n := m.MarshalTo(a, j);
    Placed(a, was, j, payload, end);
    j := j + n;
  }

  ghost function HeaderViews(hs: seq<ProtoHeader>): (r: seq<Header>)
    reads hs
    ensures |r| == |hs| && forall i :: 0 <= i < |hs| ==> r[i] == hs[i].View()
  {
    seq(|hs|, i requires 0 <= i < |hs| reads hs => hs[i].View())
  }

  ghost function CheckViews(cs: seq<ProtoCheckResult>): (r: seq<CheckResult>)
    reads cs
    ensures |r| == |cs| && forall i :: 0 <= i < |cs| ==> r[i] == cs[i].View()
  {
    seq(|cs|, i requires 0 <= i < |cs| reads cs => cs[i].View())
  }

  lemma FirstGroups(m: Message)
    ensures var g := MessageGroups(m);
            && |g| == 13 && g[1] == OptBytes(2, m.id) && g[2] == OptBytes(3, m.from)
            && g[0] == if m.session.None? then [] else [BytesF(1, EncGroups(SessionGroups(m.session.value)))]
  {
    hide EncGroups, SessionGroups, OptBytes;
  }

  /** Proto_Message */
  class ProtoMessage {
    var session: ProtoSession?
    var id: Bytes
    var from: Bytes
    var rcpt: seq<Bytes>
    var headers: seq<ProtoHeader>
    var body: Bytes
    var verdict: int32
    var verdictMsg: Bytes
    var rejectScore: uint64
    var rejectScoreThreshold: uint64
    var tempfailScore: uint64
    var tempfailScoreThreshold: uint64
    var checkResults: seq<ProtoCheckResult>

    /** The objects that decoding changes in place. */
    ghost function Footprint(): set<object>
      reads this
    {
      {this} + (if session == null then {} else {session})
    }

    ghost function View(): Message
      reads this, session, headers, checkResults
    {
      Message(if session == null then None else Some(session.View()), id, from, rcpt, HeaderViews(headers),
              body, verdict, verdictMsg, rejectScore, rejectScoreThreshold, tempfailScore,
              tempfailScoreThreshold, CheckViews(checkResults))
    }

    constructor ()
      ensures View() == NEW_MESSAGE && session == null
    {
      session := null;
      id, from, rcpt, headers, body := [], [], [], [], [];
      verdict, verdictMsg := 0, [];
      rejectScore, rejectScoreThreshold, tempfailScore, tempfailScoreThreshold := 0, 0, 0, 0;
      checkResults := [];
    }

    method SizeFirst(ghost g: Groups) returns (n: nat)
      requires g == MessageGroups(View())
      ensures n == |EncGroups(g[..3])|
    {
      FirstGroups(View());
      hide EncGroups, EncFields, OptBytes, OptVarint, OptDouble, MessageGroups;
      SizeOfNothing(g);
      n := 0;
      SizePartStart(g, 0);
      if session != null {
        var l := session.Size();
        n := AddPart(n, 1, l, g, 0, 0, 1, EncGroups(SessionGroups(session.View())));
      }
      SizePartEnd(g, 0);
      n := AddBytes(n, 1, id, g, 1, 2);
      n := AddBytes(n, 1, from, g, 2, 3);
    }

    method SizeRcpt(m: nat, ghost g: Groups) returns (n: nat)
      requires g == MessageGroups(View()) && m == |EncGroups(g[..3])|
      ensures n == |EncGroups(g[..4])|
    {
      hide EncGroups, EncFields;
      n := m;
      SizePartStart(g, 3);
      var e := 0;
      while e < |rcpt|
        invariant e <= |rcpt| && n == |EncGroups(g[..3])| + |EncFields(g[3][..e])|
      {
        n := AddPart(n, 1, |rcpt[e]|, g, 3, e, 4, rcpt[e]);
        e := e + 1;
      }
      SizePartEnd(g, 3);
    }

    method SizeMiddle(m: nat, ghost g: Groups) returns (n: nat)
      requires g == MessageGroups(View()) && m == |EncGroups(g[..4])|
      ensures n == |EncGroups(g[..8])|
    {
      hide EncGroups, EncFields, OptBytes, OptVarint, OptDouble;
      n := m;
      SizePartStart(g, 4);
      var e := 0;
      while e < |headers|
        invariant e <= |headers| && n == |EncGroups(g[..4])| + |EncFields(g[4][..e])|
      {
        var l := headers[e].Size();
        n := AddPart(n, 1, l, g, 4, e, 5, EncGroups(HeaderGroups(headers[e].View())));
        e := e + 1;
      }
      SizePartEnd(g, 4);
      n := AddBytes(n, 1, body, g, 5, 6);
      n := AddVarint(n, 1, FromInt32(verdict), g, 6, 7);
      n := AddBytes(n, 1, verdictMsg, g, 7, 8);
    }

    method SizeLast(m: nat, ghost g: Groups) returns (n: nat)
      requires g == MessageGroups(View()) && m == |EncGroups(g[..8])|
      ensures n == |EncGroups(g)|
    {
      hide EncGroups, EncFields, OptBytes, OptVarint, OptDouble;
      n := AddDouble(m, 1, rejectScore, g, 8, 9);
      n := AddDouble(n, 1, rejectScoreThreshold, g, 9, 10);
      n := AddDouble(n, 1, tempfailScore, g, 10, 11);
      n := AddDouble(n, 1, tempfailScoreThreshold, g, 11, 12);
      SizePartStart(g, 12);
      var e := 0;
      while e < |checkResults|
        invariant e <= |checkResults| && n == |EncGroups(g[..12])| + |EncFields(g[12][..e])|
      {
        var l := checkResults[e].Size();
        n := AddPart(n, 1, l, g, 12, e, 13, EncGroups(CheckGroups(checkResults[e].View())));
        e := e + 1;
      }
      SizePartEnd(g, 12);
      assert g[..13] == g;
    }

    method Size() returns (n: nat)
      ensures n == |EncGroups(MessageGroups(View()))|
    {
      hide EncGroups, EncFields, MessageGroups;
      ghost var g := MessageGroups(View());
      n := SizeFirst(g);
      n := SizeRcpt(n, g);
      n := SizeMiddle(n, g);
      n := SizeLast(n, g);
    }

    method EmitFirst(a: array<byte>, at: nat, ghost job: Job) returns (i: nat)
      requires Emitting(a, at, job, 0) && job.groups == MessageGroups(View())
      modifies a
      ensures Emitting(a, i, job, 3)
    {
      FirstGroups(View());
      hide EncGroups, EncFields, OptBytes, OptVarint, OptDouble, Emitting, EmittingPart, MessageGroups;
      i := at;
      PartStart(a, i, job, 0);
      if session != null {
        i := EmitSession(a, i, 0x0a, 0, session, job, 0, 0, 1);
      }
      PartEnd(a, i, job, 0);
      i := EmitBytes(a, i, 0x12, 0, id, job, 1, 2);
      i := EmitBytes(a, i, 0x1a, 0, from, job, 2, 3);
    }

    method EmitRcpt(a: array<byte>, at: nat, ghost job: Job) returns (i: nat)
      requires Emitting(a, at, job, 3) && job.groups == MessageGroups(View())
      modifies a
      ensures Emitting(a, i, job, 4)
    {
      hide EncGroups, EncFields, Emitting, EmittingPart;
      i := at;
      PartStart(a, i, job, 3);
      var e := 0;
      while e < |rcpt|
        invariant e <= |rcpt| && EmittingPart(a, i, job, 3, e)
      {
        i := EmitString(a, i, 0x22, 0, rcpt[e], job, 3, e, 4);
        e := e + 1;
      }
      PartEnd(a, i, job, 3);
    }

    method EmitMiddle(a: array<byte>, at: nat, ghost job: Job) returns (i: nat)
      requires Emitting(a, at, job, 4) && job.groups == MessageGroups(View())
      modifies a
      ensures Emitting(a, i, job, 8)
    {
      hide EncGroups, EncFields, OptBytes, OptVarint, OptDouble, Emitting, EmittingPart;
      i := at;
      PartStart(a, i, job, 4);
      var e := 0;
      while e < |headers|
        invariant e <= |headers| && EmittingPart(a, i, job, 4, e)
      {
        i := EmitHeader(a, i, 0x2a, 0, headers[e], job, 4, e, 5);
        e := e + 1;
      }
      PartEnd(a, i, job, 4);
      i := EmitBytes(a, i, 0x32, 0, body, job, 5, 6);
      i := EmitVarint(a, i, 0x38, 0, FromInt32(verdict), job, 6, 7);
      i := EmitBytes(a, i, 0x42, 0, verdictMsg, job, 7, 8);
    }

    method EmitLast(a: array<byte>, at: nat, ghost job: Job) returns (i: nat)
      requires Emitting(a, at, job, 8) && job.groups == MessageGroups(View())
      modifies a
      ensures |job.groups| == 13 && Emitting(a, i, job, 13)
    {
      hide EncGroups, EncFields, OptBytes, OptVarint, OptDouble, Emitting, EmittingPart;
      i := EmitDouble(a, at, 0x49, 0, rejectScore, job, 8, 9);
      i := EmitDouble(a, i, 0x51, 0, rejectScoreThreshold, job, 9, 10);
      i := EmitDouble(a, i, 0x59, 0, tempfailScore, job, 10, 11);
      i := EmitDouble(a, i, 0x61, 0, tempfailScoreThreshold, job, 11, 12);
      PartStart(a, i, job, 12);
      var e := 0;
      while e < |checkResults|
        invariant e <= |checkResults| && EmittingPart(a, i, job, 12, e)
      {
        i := EmitCheckResult(a, i, 0x6a, 0, checkResults[e], job, 12, e, 13);
        e := e + 1;
      }
      PartEnd(a, i, job, 12);
    }

    method MarshalTo(a: array<byte>, off: nat) returns (n: nat)
      requires off + |EncGroups(MessageGroups(View()))| <= a.Length
      modifies a
      ensures n == |EncGroups(MessageGroups(View()))|
      ensures Written(a[..], old(a[..]), off, EncGroups(MessageGroups(View())))
    {
      hide EncGroups, EncFields, MessageGroups, ProtoMessage.View, Emitting, EmittingPart, IsJob, Written;
      ghost var job := NewJob(a, off, MessageGroups(View()));
      var i := EmitFirst(a, off, job);
      i := EmitRcpt(a, i, job);
      i := EmitMiddle(a, i, job);
      i := EmitLast(a, i, job);
      JobDone(a, i, job, old(a[..]), off);
      n := i - off;
    }

    method Marshal() returns (data: array<byte>)
      ensures fresh(data) && data[..] == EncGroups(MessageGroups(View()))
    {
      hide EncGroups, MessageGroups, ProtoMessage.View;
      var size := Size();
      data := new byte[size];
      var n := MarshalTo(data, 0);
      assert data[..] == data[..n];
    }

    method AssignText(f: Field)
      requires Knows(KMessage, f) && f.num in {2, 3, 4, 6, 8}
      modifies this
      ensures session == old(session) && Ok(View()) == ApplyMessage(old(View()), f)
    {
      hide Decode, HeaderViews, CheckViews;
      match f.num {
        case 2 => id := f.s;
        case 3 => from := f.s;
        case 4 => rcpt := rcpt + [f.s];
        case 6 => body := f.s;
        case _ => verdictMsg := f.s;
      }
    }

    method AssignNumber(f: Field)
      requires Knows(KMessage, f) && f.num in {7, 9, 10, 11, 12}
      modifies this
      ensures session == old(session) && Ok(View()) == ApplyMessage(old(View()), f)
    {
      hide Decode, HeaderViews, CheckViews;
      match f.num {
        case 7 => verdict := ToInt32(f.v);
        case 9 => rejectScore := f.v;
        case 10 => rejectScoreThreshold := f.v;
        case 11 => tempfailScore := f.v;
        case _ => tempfailScoreThreshold := f.v;
      }
    }

    method AssignSession(s: Bytes) returns (err: Option<Error>)
      requires |s| < MAX_LENGTH
      modifies Footprint()
      ensures fresh(Footprint() - old(Footprint()))
      ensures match ApplyWrapped(MessageMsg(old(View())), BytesF(1, s))
              case Ok(m) => err.None? && MessageMsg(View()) == m
              case Err(e) => err == Some(e)
    {
      hide ApplyWrapped, DecodeWrapped;
      ApplyNested(MessageMsg(View()), 1, s);
      if session == null {
        session := new ProtoSession();
      }
      err := session.Unmarshal(s);
    }

    method AssignHeader(s: Bytes) returns (err: Option<Error>)
      requires |s| < MAX_LENGTH
      modifies this
      ensures session == old(session)
      ensures match ApplyWrapped(MessageMsg(old(View())), BytesF(5, s))
              case Ok(m) => err.None? && MessageMsg(View()) == m
              case Err(e) => err == Some(e)
    {
      hide ApplyWrapped, DecodeWrapped;
      ApplyNested(MessageMsg(View()), 5, s);
      var h := new ProtoHeader();
      headers := headers + [h];
      err := h.Unmarshal(s);
      assert HeaderViews(headers) == old(HeaderViews(headers)) + [h.View()];
    }

    method AssignCheckResult(s: Bytes) returns (err: Option<Error>)
      requires |s| < MAX_LENGTH
      modifies this
      ensures session == old(session)
      ensures match ApplyWrapped(MessageMsg(old(View())), BytesF(13, s))
              case Ok(m) => err.None? && MessageMsg(View()) == m
              case Err(e) => err == Some(e)
    {
      hide ApplyWrapped, DecodeWrapped;
      ApplyNested(MessageMsg(View()), 13, s);
      var c := new ProtoCheckResult();
      checkResults := checkResults + [c];
      err := c.Unmarshal(s);
      assert CheckViews(checkResults) == old(CheckViews(checkResults)) + [c.View()];
    }

    /** The switch of Unmarshal. */
    method Assign(f: Field) returns (err: Option<Error>)
      requires Knows(KMessage, f) && PayloadSize(f) < MAX_LENGTH
      modifies Footprint()
      ensures fresh(Footprint() - old(Footprint()))
      ensures match ApplyWrapped(MessageMsg(old(View())), f)
              case Ok(m) => err.None? && MessageMsg(View()) == m
              case Err(e) => err == Some(e)
    {
      hide ApplyWrapped, ApplyMessage, ProtoMessage.View;
      match f.num {
        case 1 =>
          Delimits(KMessage, f);
          err := AssignSession(f.s);
        case 5 =>
          Delimits(KMessage, f);
          err := AssignHeader(f.s);
        case 13 =>
          Delimits(KMessage, f);
          err := AssignCheckResult(f.s);
        case _ =>
          ApplyScalar(MessageMsg(View()), f);
          if f.num in {2, 3, 4, 6, 8} {
            AssignText(f);
          } else {
            AssignNumber(f);
          }
          err := None;
      }
    }

    /** One pass of the loop of Unmarshal. */
    method Pass(data: Bytes, i: nat) returns (err: Option<Error>, j: nat)
      requires i < |data| < MAX_LENGTH
      modifies Footprint()
      ensures fresh(Footprint() - old(Footprint()))
      ensures i < j <= |data| || err.Some?
      ensures DecodeWrapped(MessageMsg(old(View())), data, i)
           == if err.Some? then Err(err.value) else DecodeWrapped(MessageMsg(View()), data, j)
    {
      hide DecodeWrapped, ReadItemWrapped, ApplyWrapped, ProtoMessage.View;
      var item := ReadItemAt(KMessage, data, i);
      DecodeUnfold(MessageMsg(View()), data, i);
      if item.Err? {
        return Some(item.error), i;
      }
      var (f, n) := item.value;
      err, j := None, i + n;
      if f.Some? {
        err := Assign(f.value);
      }
    }

    method Unmarshal(data: Bytes) returns (err: Option<Error>)
      requires |data| < MAX_LENGTH
      modifies Footprint()
      ensures fresh(Footprint() - old(Footprint()))
      ensures match DecodeWrapped(MessageMsg(old(View())), data, 0)
              case Ok(m) => err.None? && View() == m.message
              case Err(e) => err == Some(e)
    {
      hide DecodeWrapped, ReadItemWrapped, ApplyWrapped;
      ghost var start := MessageMsg(View());
      var i := 0;
      err := None;
      while i < |data|
        invariant i <= |data| && err.None? && fresh(Footprint() - old(Footprint()))
        invariant DecodeWrapped(start, data, 0) == DecodeWrapped(MessageMsg(View()), data, i)
      {
        err, i := Pass(data, i);
        if err.Some? {
          return;
        }
      }
      DecodeEnd(MessageMsg(View()), data);
    }
  }

  method EmitMessage(a: array<byte>, i: nat, low: byte, high: byte, m: ProtoMessage,
                    ghost job: Job, ghost k: nat, ghost e: nat, ghost num: FieldNum)
    returns (j: nat)
    requires EmittingPart(a, i, job, k, e) && e < |job.groups[k]|
    requires job.groups[k][e] == BytesF(num, EncGroups(MessageGroups(m.View())))
    requires IsTag(low, high, num, 2)
    modifies a
    ensures EmittingPart(a, j, job, k, e + 1)
  {
    hide EncGroups, EncFields, MessageGroups;
    ghost var end := |job.base| + |EncGroups(job.groups)|;
    var size := m.Size();
    ghost var payload := EncGroups(MessageGroups(m.View()));
    j := EmitHead(a, i, low, high, size, job, k, e, num, payload);
    ghost var was := a[..];
    var n := m.MarshalTo(a, j);
    Placed(a, was, j, payload, end);
    j := j + n;
  }

  /** Rpc__Bayes_Learn_Message */
  class ProtoLearn {
    var isSpam: bool
    var message: ProtoMessage?
    var host: Bytes
    var reporter: Bytes
    var reason: Bytes

    ghost function Footprint(): set<object>
      reads this, message
    {
      {this} + (if message == null then {} else message.Footprint())
    }

    ghost function Sessions(): set<ProtoSession?>
      reads this, message
    {
      if message == null then {} else {message.session}
    }

    ghost function Headers(): seq<ProtoHeader>
      reads this, message
    {
      if message == null then [] else message.headers
    }

    ghost function Checks(): seq<ProtoCheckResult>
      reads this, message
    {
      if message == null then [] else message.checkResults
    }

    ghost function View(): Learn
      reads this, message, Sessions(), Headers(), Checks()
    {
      Learn(isSpam, if message == null then None else Some(message.View()), host, reporter, reason)
    }

    constructor ()
      ensures View() == NEW_LEARN && message == null
    {
      isSpam, message, host, reporter, reason := false, null, [], [], [];
    }

    method Size() returns (n: nat)
      ensures n == |EncGroups(LearnGroups(View()))|
    {
      hide EncGroups, EncFields, OptBytes, OptVarint, OptDouble, ProtoMessage.View, MessageGroups;
      ghost var g := LearnGroups(View());
      SizeOfNothing(g);
      n := AddVarint(0, 1, BoolBit(isSpam), g, 0, 1);
      SizePartStart(g, 1);
      if message != null {
        var l := message.Size();
        n := AddPart(n, 1, l, g, 1, 0, 2, EncGroups(MessageGroups(message.View())));
      }
      SizePartEnd(g, 1);
      n := AddBytes(n, 2, host, g, 2, 17);
      n := AddBytes(n, 2, reporter, g, 3, 18);
      n := AddBytes(n, 2, reason, g, 4, 19);
      assert g[..5] == g;
    }

    method EmitFirst(a: array<byte>, at: nat, ghost job: Job) returns (i: nat)
      requires Emitting(a, at, job, 0) && job.groups == LearnGroups(View())
      modifies a
      ensures Emitting(a, i, job, 2)
    {
      hide EncGroups, EncFields, OptBytes, OptVarint, OptDouble, ProtoMessage.View, MessageGroups;
      hide Emitting, EmittingPart;
      i := EmitVarint(a, at, 0x08, 0, BoolBit(isSpam), job, 0, 1);
      PartStart(a, i, job, 1);
      if message != null {
        i := EmitMessage(a, i, 0x12, 0, message, job, 1, 0, 2);
      }
      PartEnd(a, i, job, 1);
    }

    method EmitLast(a: array<byte>, at: nat, ghost job: Job) returns (i: nat)
      requires Emitting(a, at, job, 2) && job.groups == LearnGroups(View())
      modifies a
      ensures |job.groups| == 5 && Emitting(a, i, job, 5)
    {
      hide EncGroups, EncFields, OptBytes, OptVarint, OptDouble, ProtoMessage.View, MessageGroups;
      hide Emitting, EmittingPart;
      i := EmitBytes(a, at, 0x8a, 0x01, host, job, 2, 17);
      i := EmitBytes(a, i, 0x92, 0x01, reporter, job, 3, 18);
      i := EmitBytes(a, i, 0x9a, 0x01, reason, job, 4, 19);
    }

    method MarshalTo(a: array<byte>, off: nat) returns (n: nat)
      requires off + |EncGroups(LearnGroups(View()))| <= a.Length
      modifies a
      ensures n == |EncGroups(LearnGroups(View()))|
      ensures Written(a[..], old(a[..]), off, EncGroups(LearnGroups(View())))
    {
      hide EncGroups, EncFields, LearnGroups, MessageGroups, ProtoMessage.View, Emitting, EmittingPart, IsJob, Written;
      ghost var job := NewJob(a, off, LearnGroups(View()));
      var i := EmitFirst(a, off, job);
      i := EmitLast(a, i, job);
      JobDone(a, i, job, old(a[..]), off);
      n := i - off;
    }

    method AssignMessage(s: Bytes) returns (err: Option<Error>)
      requires |s| < MAX_LENGTH
      modifies Footprint()
      ensures fresh(Footprint() - old(Footprint()))
      ensures match ApplyWrapped(LearnMsg(old(View())), BytesF(2, s))
              case Ok(m) => err.None? && LearnMsg(View()) == m
              case Err(e) => err == Some(e)
    {
      hide ApplyWrapped, DecodeWrapped, ProtoMessage.View;
      ApplyNested(LearnMsg(View()), 2, s);
      if message == null {
        message := new ProtoMessage();
      }
      err := message.Unmarshal(s);
    }

    /** The switch of Unmarshal. */
    method Assign(f: Field) returns (err: Option<Error>)
      requires Knows(KLearn, f) && PayloadSize(f) < MAX_LENGTH
      modifies Footprint()
      ensures fresh(Footprint() - old(Footprint()))
      ensures match ApplyWrapped(LearnMsg(old(View())), f)
              case Ok(m) => err.None? && LearnMsg(View()) == m
              case Err(e) => err == Some(e)
    {
      hide ApplyWrapped, ProtoMessage.View;
      err := None;
      if f.num == 2 {
        Delimits(KLearn, f);
        err := AssignMessage(f.s);
        return;
      }
      ApplyScalar(LearnMsg(View()), f);
      match f.num {
        case 1 => isSpam := f.v != 0;
        case 17 => host := f.s;
        case 18 => reporter := f.s;
        case _ => reason := f.s;
      }
    }

    /** One pass of the loop of Unmarshal. */
    method Pass(data: Bytes, i: nat) returns (err: Option<Error>, j: nat)
      requires i < |data| < MAX_LENGTH
      modifies Footprint()
      ensures fresh(Footprint() - old(Footprint()))
      ensures i < j <= |data| || err.Some?
      ensures DecodeWrapped(LearnMsg(old(View())), data, i)
           == if err.Some? then Err(err.value) else DecodeWrapped(LearnMsg(View()), data, j)
    {
      hide DecodeWrapped, ReadItemWrapped, ApplyWrapped, ProtoMessage.View;
      var item := ReadItemAt(KLearn, data, i);
      DecodeUnfold(LearnMsg(View()), data, i);
      if item.Err? {
        return Some(item.error), i;
      }
      var (f, n) := item.value;
      err, j := None, i + n;
      if f.Some? {
        err := Assign(f.value);
      }
    }

    method Unmarshal(data: Bytes) returns (err: Option<Error>)
      requires |data| < MAX_LENGTH
      modifies Footprint()
      ensures fresh(Footprint() - old(Footprint()))
      ensures match DecodeWrapped(LearnMsg(old(View())), data, 0)
              case Ok(m) => err.None? && View() == m.learn
              case Err(e) => err == Some(e)
    {
      hide DecodeWrapped, ReadItemWrapped, ApplyWrapped;
      ghost var start := LearnMsg(View());
      var i := 0;
      err := None;
      while i < |data|
        invariant i <= |data| && err.None? && fresh(Footprint() - old(Footprint()))
        invariant DecodeWrapped(start, data, 0) == DecodeWrapped(LearnMsg(View()), data, i)
      {
        err, i := Pass(data, i);
        if err.Some? {
          return;
        }
      }
      DecodeEnd(LearnMsg(View()), data);
    }
  }

  method EmitLearn(a: array<byte>, i: nat, low: byte, high: byte, m: ProtoLearn,
                    ghost job: Job, ghost k: nat, ghost e: nat, ghost num: FieldNum)
    returns (j: nat)
    requires EmittingPart(a, i, job, k, e) && e < |job.groups[k]|
    requires job.groups[k][e] == BytesF(num, EncGroups(LearnGroups(m.View())))
    requires IsTag(low, high, num, 2)
    modifies a
    ensures EmittingPart(a, j, job, k, e + 1)
  {
    hide EncGroups, EncFields, LearnGroups, MessageGroups, ProtoMessage.View;
    ghost var end := |job.base| + |EncGroups(job.groups)|;
    var size := m.Size();
    ghost var payload := EncGroups(LearnGroups(m.View()));
    j := EmitHead(a, i, low, high, size, job, k, e, num, payload);
    ghost var was := a[..];
    var n := m.MarshalTo(a, j);
    Placed(a, was, j, payload, end);
    j := j + n;
  }

  method EmitLearnId(a: array<byte>, i: nat, low: byte, high: byte, m: ProtoLearnId,
                    ghost job: Job, ghost k: nat, ghost e: nat, ghost num: FieldNum)
    returns (j: nat)
    requires EmittingPart(a, i, job, k, e) && e < |job.groups[k]|
    requires job.groups[k][e] == BytesF(num, EncGroups(LearnIdGroups(m.View())))
    requires IsTag(low, high, num, 2)
    modifies a
    ensures EmittingPart(a, j, job, k, e + 1)
  {
    hide EncGroups, EncFields, LearnIdGroups;
    ghost var end := |job.base| + |EncGroups(job.groups)|;
    var size := m.Size();
    ghost var payload := EncGroups(LearnIdGroups(m.View()));
    j := EmitHead(a, i, low, high, size, job, k, e, num, payload);
    ghost var was := a[..];
    var n := m.MarshalTo(a, j);
    Placed(a, was, j, payload, end);
    j := j + n;
  }

  lemma PartsOfRpc(p: Rpc)
    ensures var g := RpcGroups(p);
            && |g| == 3 && g[0] == OptBytes(1, p.name)
            && g[1] == (if p.learn.None? then [] else [BytesF(1024, EncGroups(LearnGroups(p.learn.value)))])
            && g[2] == (if p.learnId.None? then [] else [BytesF(1025, EncGroups(LearnIdGroups(p.learnId.value)))])
  {
    hide EncGroups, LearnGroups, LearnIdGroups, OptBytes;
  }

  /** Rpc */
  class ProtoRpc {
    var name: Bytes
    var learn: ProtoLearn?
    var learnId: ProtoLearnId?

    ghost function Footprint(): set<object>
      reads this, learn, if learn == null then {} else {learn.message}
    {
      {this} + (if learn == null then {} else learn.Footprint())
      + (if learnId == null then {} else {learnId})
    }

    ghost function Messages(): set<ProtoMessage?>
      reads this, learn
    {
      if learn == null then {} else {learn.message}
    }

    ghost function Sessions(): set<ProtoSession?>
      reads this, learn, Messages()
    {
      if learn == null then {} else learn.Sessions()
    }

    ghost function Headers(): seq<ProtoHeader>
      reads this, learn, Messages()
    {
      if learn == null then [] else learn.Headers()
    }

    ghost function Checks(): seq<ProtoCheckResult>
      reads this, learn, Messages()
    {
      if learn == null then [] else learn.Checks()
    }

    ghost function View(): Rpc
      reads this, learn, learnId, Messages(), Sessions(), Headers(), Checks()
    {
      Rpc(name, if learn == null then None else Some(learn.View()),
          if learnId == null then None else Some(learnId.View()))
    }

    constructor ()
      ensures View() == NEW_RPC && learn == null && learnId == null
    {
      name, learn, learnId := [], null, null;
    }

    method Size() returns (n: nat)
      ensures n == |EncGroups(RpcGroups(View()))|
    {
      PartsOfRpc(View());
      hide EncGroups, EncFields, OptBytes, RpcGroups, LearnGroups, LearnIdGroups, ProtoMessage.View;
      ghost var g := RpcGroups(View());
      SizeOfNothing(g);
      n := AddBytes(0, 1, name, g, 0, 1);
      SizePartStart(g, 1);
      if learn != null {
        var l := learn.Size();
        n := AddPart(n, 2, l, g, 1, 0, 1024, EncGroups(LearnGroups(learn.View())));
      }
      SizePartEnd(g, 1);
      SizePartStart(g, 2);
      if learnId != null {
        var l := learnId.Size();
        n := AddPart(n, 2, l, g, 2, 0, 1025, EncGroups(LearnIdGroups(learnId.View())));
      }
      SizePartEnd(g, 2);
      assert g[..3] == g;
    }

    method EmitFirst(a: array<byte>, at: nat, ghost job: Job) returns (i: nat)
      requires Emitting(a, at, job, 0) && job.groups == RpcGroups(View())
      modifies a
      ensures Emitting(a, i, job, 2)
    {
      PartsOfRpc(View());
      hide EncGroups, EncFields, OptBytes, RpcGroups, LearnGroups, LearnIdGroups, ProtoMessage.View;
      hide Emitting, EmittingPart;
      i := EmitBytes(a, at, 0x0a, 0, name, job, 0, 1);
      PartStart(a, i, job, 1);
      if learn != null {
        i := EmitLearn(a, i, 0x82, 0x40, learn, job, 1, 0, 1024);
      }
      PartEnd(a, i, job, 1);
    }

    method EmitLast(a: array<byte>, at: nat, ghost job: Job) returns (i: nat)
      requires Emitting(a, at, job, 2) && job.groups == RpcGroups(View())
      modifies a
      ensures Emitting(a, i, job, 3)
    {
      PartsOfRpc(View());
      hide EncGroups, EncFields, OptBytes, RpcGroups, LearnGroups, LearnIdGroups, ProtoMessage.View;
      hide Emitting, EmittingPart;
      i := at;
      PartStart(a, i, job, 2);
      if learnId != null {
        i := EmitLearnId(a, i, 0x8a, 0x40, learnId, job, 2, 0, 1025);
      }
      PartEnd(a, i, job, 2);
    }

    method MarshalTo(a: array<byte>, off: nat) returns (n: nat)
      requires off + |EncGroups(RpcGroups(View()))| <= a.Length
      modifies a
      ensures n == |EncGroups(RpcGroups(View()))|
      ensures Written(a[..], old(a[..]), off, EncGroups(RpcGroups(View())))
    {
      hide EncGroups, EncFields, LearnGroups, MessageGroups, ProtoMessage.View, Emitting, EmittingPart, IsJob, Written;
      ghost var job := NewJob(a, off, RpcGroups(View()));
      var i := EmitFirst(a, off, job);
      i := EmitLast(a, i, job);
      JobDone(a, i, job, old(a[..]), off);
      n := i - off;
    }

    method Marshal() returns (data: array<byte>)
      ensures fresh(data) && data[..] == EncGroups(RpcGroups(View()))
    {
      hide EncGroups, RpcGroups, ProtoMessage.View;
      var size := Size();
      data := new byte[size];
      var n := MarshalTo(data, 0);
    }

    method AssignLearn(s: Bytes) returns (err: Option<Error>)
      requires |s| < MAX_LENGTH
      modifies Footprint()
      ensures fresh(Footprint() - old(Footprint()))
      ensures match ApplyWrapped(RpcMsg(old(View())), BytesF(1024, s))
              case Ok(m) => err.None? && RpcMsg(View()) == m
              case Err(e) => err == Some(e)
    {
      hide ApplyWrapped, DecodeWrapped, ProtoMessage.View;
      ApplyNested(RpcMsg(View()), 1024, s);
      if learn == null {
        learn := new ProtoLearn();
      }
      err := learn.Unmarshal(s);
    }

    method AssignLearnId(s: Bytes) returns (err: Option<Error>)
      requires |s| < MAX_LENGTH
      modifies Footprint()
      ensures fresh(Footprint() - old(Footprint()))
      ensures match ApplyWrapped(RpcMsg(old(View())), BytesF(1025, s))
              case Ok(m) => err.None? && RpcMsg(View()) == m
              case Err(e) => err == Some(e)
    {
      hide ApplyWrapped, DecodeWrapped, ProtoMessage.View;
      ApplyNested(RpcMsg(View()), 1025, s);
      if learnId == null {
        learnId := new ProtoLearnId();
      }
      err := learnId.Unmarshal(s);
    }

    /** The switch of Unmarshal. */
    method Assign(f: Field) returns (err: Option<Error>)
      requires Knows(KRpc, f) && PayloadSize(f) < MAX_LENGTH
      modifies Footprint()
      ensures fresh(Footprint() - old(Footprint()))
      ensures match ApplyWrapped(RpcMsg(old(View())), f)
              case Ok(m) => err.None? && RpcMsg(View()) == m
              case Err(e) => err == Some(e)
    {
      hide ApplyWrapped, ProtoMessage.View;
      Delimits(KRpc, f);
      match f.num {
        case 1 =>
          ApplyScalar(RpcMsg(View()), f);
          name := f.s;
          err := None;
        case 1024 => err := AssignLearn(f.s);
        case _ => err := AssignLearnId(f.s);
      }
    }

    /** One pass of the loop of Unmarshal. */
    method Pass(data: Bytes, i: nat) returns (err: Option<Error>, j: nat)
      requires i < |data| < MAX_LENGTH
      modifies Footprint()
      ensures fresh(Footprint() - old(Footprint()))
      ensures i < j <= |data| || err.Some?
      ensures DecodeWrapped(RpcMsg(old(View())), data, i)
           == if err.Some? then Err(err.value) else DecodeWrapped(RpcMsg(View()), data, j)
    {
      hide DecodeWrapped, ReadItemWrapped, ApplyWrapped, ProtoMessage.View;
      var item := ReadItemAt(KRpc, data, i);
      DecodeUnfold(RpcMsg(View()), data, i);
      if item.Err? {
        return Some(item.error), i;
      }
      var (f, n) := item.value;
      err, j := None, i + n;
      if f.Some? {
        err := Assign(f.value);
      }
    }

    method Unmarshal(data: Bytes) returns (err: Option<Error>)
      requires |data| < MAX_LENGTH
      modifies Footprint()
      ensures fresh(Footprint() - old(Footprint()))
      ensures match DecodeWrapped(RpcMsg(old(View())), data, 0)
              case Ok(m) => err.None? && View() == m.rpc
              case Err(e) => err == Some(e)
    {
      hide DecodeWrapped, ReadItemWrapped, ApplyWrapped;
      ghost var start := RpcMsg(View());
      var i := 0;
      err := None;
      while i < |data|
        invariant i <= |data| && err.None? && fresh(Footprint() - old(Footprint()))
        invariant DecodeWrapped(start, data, 0) == DecodeWrapped(RpcMsg(View()), data, i)
      {
        err, i := Pass(data, i);
        if err.Some? {
          return;
        }
      }
      DecodeEnd(RpcMsg(View()), data);
    }
  }
}
