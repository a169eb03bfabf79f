/** The rewritten addresses and their store: what was issued within a week is
    accepted and leads back to its sender (srs.go, lines 42-153). */
module SrsStore {
  import opened Addresses
  import opened Srs

  predicate IsDigit(c: char) {
    '0' <= c <= '9'
  }

  /** Digits, if any, and then an equals sign. */
  predicate DigitsThenEquals(s: string) {
    s != [] && (s[0] == '=' || (IsDigit(s[0]) && DigitsThenEquals(s[1..])))
  }

  /** The pattern of a rewritten local part: SRS in any case, digits, equals. */
  predicate IsSrsLocal(local: string) {
    |local| >= 5 && Lower(local[..3]) == "srs" && IsDigit(local[3]) && DigitsThenEquals(local[4..])
  }

  /** The text starts with SRS in any case, n digits and an equals sign. */
  ghost predicate SrsDigits(l: string, n: nat) {
    && |l| > 3 + n
    && (l[0] == 'S' || l[0] == 's') && (l[1] == 'R' || l[1] == 'r') && (l[2] == 'S' || l[2] == 's')
    && (forall i :: 3 <= i < 3 + n ==> '0' <= l[i] <= '9')
    && l[3 + n] == '='
  }

  lemma {:induction false} DigitsIff(s: string)
    ensures DigitsThenEquals(s)
       <==> exists n: nat :: n < |s| && (forall i :: 0 <= i < n ==> '0' <= s[i] <= '9') && s[n] == '='
    decreases |s|
  {
    if s != [] {
      var t := s[1..];
      DigitsIff(t);
      if s[0] == '=' {
        assert 0 < |s| && s[0] == '=';
      } else {
        if n: nat :| n < |s| && (forall i :: 0 <= i < n ==> '0' <= s[i] <= '9') && s[n] == '=' {
          assert n > 0 && t[n - 1] == '=' && forall i :: 0 <= i < n - 1 ==> t[i] == s[i + 1];
        }
        if IsDigit(s[0]) && DigitsThenEquals(t) {
          var n: nat :| n < |t| && (forall i :: 0 <= i < n ==> '0' <= t[i] <= '9') && t[n] == '=';
          assert s[n + 1] == '=' && forall i :: 1 <= i < n + 1 ==> s[i] == t[i - 1];
        }
      }
    }
  }

  /** The pattern is that of SRS in any case, one digit or more, and an equals sign. */
  lemma PatternIff(l: string)
    ensures IsSrsLocal(l) <==> exists n: nat :: n >= 1 && SrsDigits(l, n)
  {
    if |l| >= 5 {
      DigitsIff(l[4..]);
      assert Lower(l[..3]) == "srs" <==> Lower(l[..3])[0] == 's' && Lower(l[..3])[1] == 'r' && Lower(l[..3])[2] == 's';
      if n: nat :| n >= 1 && SrsDigits(l, n) {
        assert l[4..][n - 1] == '=' && forall i :: 0 <= i < n - 1 ==> l[4..][i] == l[i + 4];
      }
      if IsSrsLocal(l) {
        var t := l[4..];
        var n: nat :| n < |t| && (forall i :: 0 <= i < n ==> '0' <= t[i] <= '9') && t[n] == '=';
        assert forall i :: 4 <= i < 4 + n ==> l[i] == t[i - 4];
        assert SrsDigits(l, n + 1);
      }
    }
  }

  /** The rewritten address of a message. */
  function SrsText(m: Message, domain: string): string {
    "SRS0=" + m.queueId + "=" + m.from.domain + "=" + m.from.local + "@" + domain
  }

  function Key(address: string): string {
    Lower(KEY_PREFIX + address)
  }

  datatype Entry = Entry(value: string, expiresAt: int)

  datatype Change = DelRcpt(address: string) | AddRcpt(address: string)

  datatype Verdict = Permit | Reject

  function Live(entries: map<string, Entry>, now: int, key: string): string {
    if key in entries && now < entries[key].expiresAt then entries[key].value else ""
  }

  function FoundIn(entries: map<string, Entry>, now: int, a: Mailbox): string {
    Live(entries, now, Key(Text(a)))
  }

  /** For each address, its removal and the addition of what it leads to. */
  function Swaps(entries: map<string, Entry>, now: int, addresses: seq<Mailbox>): seq<Change> {
    if addresses == [] then []
    else
      var last := addresses[|addresses| - 1];
      Swaps(entries, now, addresses[..|addresses| - 1])
      + [DelRcpt(Text(last)), AddRcpt(FoundIn(entries, now, last))]
  }

  /** First the removal of each, then the addition of its sender, in their order. */
  lemma {:induction false} SwapsAre(entries: map<string, Entry>, now: int, addresses: seq<Mailbox>, i: nat)
    requires i < |addresses|
    ensures |Swaps(entries, now, addresses)| == 2 * |addresses|
    ensures Swaps(entries, now, addresses)[2 * i] == DelRcpt(Text(addresses[i]))
    ensures Swaps(entries, now, addresses)[2 * i + 1] == AddRcpt(FoundIn(entries, now, addresses[i]))
    decreases |addresses|
  {
    hide FoundIn, Text;
    var init := addresses[..|addresses| - 1];
    if init != [] {
      SwapsAre(entries, now, init, if i < |init| then i else 0);
    }
  }

  /** The domain that the headers and recipients of a message give. */
  function RewriteOf(m: Message, name: string): Outcome<string> {
    RewriteDomain(Domains(RecipientValues(m.headers, name)), LowerDomains(m.rcpt))
  }

  ghost predicate Via(m: Message, domain: string, name: string) {
    RewritesVia(Domains(RecipientValues(m.headers, name)), LowerDomains(m.rcpt), domain)
  }

  /** The message is forwarded, has a sender, and is rewritten through this domain. */
  ghost predicate Rewrites(m: Message, domain: string, name: string) {
    && Forwarded(m, name) && Text(m.from) != "" && domain != ""
    && RewriteOf(m, name) == Done(domain)
    && (Distinct(Domains(RecipientValues(m.headers, name))) ==> Via(m, domain, name))
  }

  lemma OnlyVia(m: Message, name: string)
    requires Distinct(Domains(RecipientValues(m.headers, name)))
    ensures RewriteOf(m, name).Done? && forall d :: Via(m, d, name) <==> RewriteOf(m, name) == Done(d)
  {
    hide RewriteDomain, RewritesVia;
    var s, gone := Domains(RecipientValues(m.headers, name)), LowerDomains(m.rcpt);
    DistinctRewrites(s, gone);
    forall d | RewritesVia(s, gone, d) ensures RewriteOf(m, name) == Done(d) {
      RewritesOne(s, gone, d, RewriteDomain(s, gone).value);
    }
  }

  class Module {
    const enabled: bool
    const recipientHeader: string
    var now: int
    var entries: map<string, Entry>

    constructor (enabled: bool, recipientHeader: string, now: int)
      ensures this.enabled == enabled && this.recipientHeader == recipientHeader
      ensures this.now == now && entries == map[]
    {
      this.enabled, this.recipientHeader, this.now, entries := enabled, recipientHeader, now, map[];
    }

    predicate IsSrsAddress(a: Mailbox) {
      enabled && IsSrsLocal(a.local)
    }

    method LookupAddress(a: Mailbox) returns (sender: string)
      ensures sender == FoundIn(entries, now, a)
    {
      var key := Key(Text(a));
      sender := if key in entries && now < entries[key].expiresAt then entries[key].value else "";
    }

    method Persist(m: Message, from: string)
      modifies this`entries
      ensures entries == old(entries)[Key(from) := Entry(Text(m.from), now + SEVEN_DAYS)]
    {
      entries := entries[Key(from) := Entry(Text(m.from), now + SEVEN_DAYS)];
    }

    method RecipientCheck(a: Mailbox) returns (verdict: Verdict)
      ensures verdict == Reject <==> IsSrsAddress(a) && FoundIn(entries, now, a) == ""
      ensures verdict == Reject
         <==> && enabled && (exists n: nat :: n >= 1 && SrsDigits(a.local, n))
              && !(exists key :: key in entries && key == Lower("cluegetter--srs-entry-" + Text(a))
                     && now < entries[key].expiresAt && entries[key].value != "")
      ensures |a.local| < 3 || !EqualFold(a.local[..3], "SRS") || '=' !in a.local ==> verdict == Permit
    {
      PatternIff(a.local);
      assert Lower("SRS") == "srs";
      if !IsSrsAddress(a) {
        return Permit;
      }
      var sender := LookupAddress(a);
      return if sender == "" then Reject else Permit;
    }

    /** getFromAddress: empty unless a forwarded message with a sender names a domain
        to rewrite through. */
    method GetFromAddress(m: Message) returns (from: Outcome<string>)
      ensures from.Panics? <==> enabled && Forwarded(m, recipientHeader) && Text(m.from) != ""
                                && RewriteOf(m, recipientHeader).Panics?
      ensures from.Done? && from.value != "" ==>
                exists domain :: Rewrites(m, domain, recipientHeader) && from.value == SrsText(m, domain)
      ensures DomainsDiffer(m, recipientHeader) && enabled && Forwarded(m, recipientHeader) && Text(m.from) != "" ==>
                exists domain :: RewritesViaHeader(m, recipientHeader, domain)
                  && from == Done(if domain == "" then ""
                                  else "SRS0=" + m.queueId + "=" + m.from.domain + "=" + m.from.local + "@" + domain)
      ensures from == Done("") <==> !enabled || !Forwarded(m, recipientHeader) || Text(m.from) == ""
                                    || RewriteOf(m, recipientHeader) == Done("")
      ensures Distinct(Domains(RecipientValues(m.headers, recipientHeader))) ==>
                from.Done? && (from.value == "" <==> !enabled || !Forwarded(m, recipientHeader) || Text(m.from) == ""
                                                     || Via(m, "", recipientHeader))
    {
      hide RewriteDomain, RewritesVia;
      if Distinct(Domains(RecipientValues(m.headers, recipientHeader))) {
        OnlyVia(m, recipientHeader);
      }
      if !enabled {
        return Done("");
      }
      var forwarded := IsForwarded(m, recipientHeader);
      if !forwarded || Text(m.from) == "" {
        return Done("");
      }
      var domain := GetRewriteDomain(m, recipientHeader);
      if domain.Panics? || domain.value == "" {
        return domain;
      }
      from := Done(SrsText(m, domain.value));
      assert Rewrites(m, domain.value, recipientHeader);
    }

    /** swapRecipients, and the map of what led where. */
    method SwapRecipients(addresses: seq<Mailbox>) returns (mapped: map<string, string>, changes: seq<Change>)
      ensures changes == Swaps(entries, now, addresses)
      ensures forall a :: a in addresses ==> Text(a) in mapped && mapped[Text(a)] == FoundIn(entries, now, a)
    {
      mapped, changes := map[], [];
      for i := 0 to |addresses|
        invariant changes == Swaps(entries, now, addresses[..i])
        invariant forall a :: a in addresses[..i] ==>
                    Text(a) in mapped && mapped[Text(a)] == FoundIn(entries, now, a)
      {
        assert addresses[..i + 1][..i] == addresses[..i];
        var a := addresses[i];
        var sender := LookupAddress(a);
        mapped := mapped[Text(a) := sender];
        changes := changes + [DelRcpt(Text(a)), AddRcpt(sender)];
      }
      assert addresses[..|addresses|] == addresses;
    }
  }

  // ----- Keys -----

  lemma LowerConcat(a: string, b: string)
    ensures Lower(a + b) == Lower(a) + Lower(b)
  {
  }

  lemma LowerKeepsOut(s: string, c: char)
    requires c !in s && c in {'=', '@'}
    ensures c !in Lower(s)
  {
  }

  predicate Clean(m: Message) {
    '=' !in m.queueId && '=' !in m.from.domain && '@' !in m.from.local
  }

  function LowerText(m: Message, domain: string): string {
    Lower(m.queueId) + "=" + (Lower(m.from.domain) + "=" + (Lower(m.from.local) + "@" + Lower(domain)))
  }

  lemma LowerParts(a: string, sep: string, b: string)
    requires sep in {"=", "@"}
    ensures Lower(a + sep + b) == Lower(a) + sep + Lower(b)
  {
    LowerConcat(a + sep, b);
    LowerConcat(a, sep);
    assert Lower(sep) == sep;
  }

  lemma KeyIs(m: Message, domain: string)
    ensures Key(SrsText(m, domain)) == Lower(KEY_PREFIX + "SRS0=") + LowerText(m, domain)
  {
    var tail := m.from.local + "@" + domain;
    var middle := m.from.domain + "=" + tail;
    assert KEY_PREFIX + SrsText(m, domain) == (KEY_PREFIX + "SRS0=") + (m.queueId + "=" + middle);
    LowerConcat(KEY_PREFIX + "SRS0=", m.queueId + "=" + middle);
    LowerParts(m.queueId, "=", middle);
    LowerParts(m.from.domain, "=", tail);
    LowerParts(m.from.local, "@", domain);
  }

  lemma SamePrefix(p: string, a: string, b: string)
    requires p + a == p + b
    ensures a == b
  {
    assert (p + a)[|p|..] == a && (p + b)[|p|..] == b;
  }

  lemma SameParts(a: string, b: string, c: string, d: string, sep: char)
    requires a + [sep] + b == c + [sep] + d && sep !in a && sep !in c
    ensures a == c && b == d
  {
    SplitsAt(a, sep, b);
    SplitsAt(c, sep, d);
  }

  lemma LowerTextOf(a: Mailbox)
    ensures Lower(Text(a)) == Text(Address(Lower(a.local), Lower(a.domain)))
  {
    if a.domain != [] {
      LowerParts(a.local, "@", a.domain);
    }
  }

  /** Without an equals sign in queue id or sender domain, two rewritten addresses
      share a key only if they are equal but for the case of letters, and so then
      are the messages' queue ids and senders. */
  lemma KeysAreInjective(m: Message, domain: string, n: Message, other: string)
    requires Clean(m) && Clean(n) && Key(SrsText(m, domain)) == Key(SrsText(n, other))
    ensures EqualFold(m.queueId, n.queueId) && EqualFold(m.from.domain, n.from.domain)
    ensures EqualFold(m.from.local, n.from.local) && EqualFold(domain, other)
    ensures EqualFold(Text(m.from), Text(n.from))
  {
    KeyIs(m, domain);
    KeyIs(n, other);
    SamePrefix(Lower(KEY_PREFIX + "SRS0="), LowerText(m, domain), LowerText(n, other));
    LowerKeepsOut(m.queueId, '=');
    LowerKeepsOut(n.queueId, '=');
    LowerKeepsOut(m.from.domain, '=');
    LowerKeepsOut(n.from.domain, '=');
    LowerKeepsOut(m.from.local, '@');
    LowerKeepsOut(n.from.local, '@');
    hide Lower;
    var mTail, nTail := Lower(m.from.local) + "@" + Lower(domain), Lower(n.from.local) + "@" + Lower(other);
    SameParts(Lower(m.queueId), Lower(m.from.domain) + "=" + mTail,
              Lower(n.queueId), Lower(n.from.domain) + "=" + nTail, '=');
    SameParts(Lower(m.from.domain), mTail, Lower(n.from.domain), nTail, '=');
    SameParts(Lower(m.from.local), Lower(domain), Lower(n.from.local), Lower(other), '@');
    LowerTextOf(m.from);
    LowerTextOf(n.from);
  }

  /** Messages whose queue ids differ never share a key when those lack an equals
      sign, whatever their senders are. */
  lemma QueueIdsSeparate(m: Message, domain: string, n: Message, other: string)
    requires '=' !in m.queueId && '=' !in n.queueId && !EqualFold(m.queueId, n.queueId)
    ensures Key(SrsText(m, domain)) != Key(SrsText(n, other))
  {
    if Key(SrsText(m, domain)) == Key(SrsText(n, other)) {
      KeyIs(m, domain);
      KeyIs(n, other);
      SamePrefix(Lower(KEY_PREFIX + "SRS0="), LowerText(m, domain), LowerText(n, other));
      LowerKeepsOut(m.queueId, '=');
      LowerKeepsOut(n.queueId, '=');
      hide Lower;
      SameParts(Lower(m.queueId), LowerText(m, domain)[|m.queueId| + 1..],
                Lower(n.queueId), LowerText(n, other)[|n.queueId| + 1..], '=');
    }
  }

  predicate NoAt(m: Message) {
    '@' !in m.queueId && '@' !in m.from.domain && '@' !in m.from.local
  }

  lemma SrsTextIs(m: Message, domain: string)
    ensures SrsText(m, domain)
         == "SRS0=" + (m.queueId + "=" + m.from.domain + "=" + m.from.local) + "@" + domain
  {
  }

  /** A text with an equals sign splits at the first one. */
  lemma SplitOnce(text: string, k: nat) returns (before: string, after: string)
    requires k < |text| && text[k] == '='
    ensures text == before + "=" + after && '=' !in before && |before| <= k
  {
    var i := IndexOf(text, '=');
    IndexAtMost(text, '=', k);
    hide IndexOf;
    before, after := text[..i], text[i + 1..];
    Rejoin(text, i);
  }

  /** And one with two splits at the first two. */
  lemma SplitTwice(a: string, b: string, c: string) returns (first: string, second: string, rest: string)
    ensures first + "=" + second + "=" + rest == a + "=" + b + "=" + c
    ensures '=' !in first && '=' !in second
  {
    var text := a + "=" + b + "=" + c;
    var k := |a| + 1 + |b|;
    assert text[|a|] == '=' && text[k] == '=';
    var tail;
    first, tail := SplitOnce(text, |a|);
    assert tail[k - |first| - 1] == text[k];
    second, rest := SplitOnce(tail, k - |first| - 1);
    assert first + "=" + second + "=" + rest == first + "=" + (second + "=" + rest);
  }

  lemma AtKeptOut(text: string, before: string, after: string)
    requires text == before + "=" + after && '@' !in text
    ensures '@' !in before && '@' !in after
  {
    forall i | 0 <= i < |before| ensures before[i] != '@' {
      assert text[i] == before[i];
    }
    forall i | 0 <= i < |after| ensures after[i] != '@' {
      assert text[|before| + 1 + i] == after[i];
    }
  }

  lemma SplitKeepsAtOut(text: string, first: string, second: string, rest: string)
    requires text == first + "=" + second + "=" + rest && '@' !in text
    ensures '@' !in first && '@' !in second && '@' !in rest
  {
    assert text == first + "=" + (second + "=" + rest);
    AtKeptOut(text, first, second + "=" + rest);
    AtKeptOut(second + "=" + rest, second, rest);
  }

  lemma SameFront(a: string, b: string, c: string, d: string)
    requires a + "=" + b == c + "=" + d && |b| == |d|
    ensures a == c
  {
    assert |a| == |c| && (a + "=" + b)[..|a|] == a && (c + "=" + d)[..|c|] == c;
  }

  lemma LowerLengths(a: string, b: string)
    requires Lower(a) == Lower(b)
    ensures |a| == |b|
  {
    assert |Lower(a)| == |a| && |Lower(b)| == |b|;
  }

  lemma LowerKeepsIn(s: string, c: char)
    requires c in s && c in {'=', '@'}
    ensures c in Lower(s)
  {
    var i :| 0 <= i < |s| && s[i] == c;
    assert Lower(s)[i] == c;
  }

  /** Senders without another `@` that print alike are alike. */
  lemma SameSenderParts(a: Mailbox, b: Mailbox)
    requires '@' !in a.local && '@' !in b.local && EqualFold(Text(a), Text(b))
    ensures EqualFold(a.local, b.local) && EqualFold(a.domain, b.domain)
  {
    LowerTextOf(a);
    LowerTextOf(b);
    LowerKeepsOut(a.local, '@');
    LowerKeepsOut(b.local, '@');
    var x, y := Address(Lower(a.local), Lower(a.domain)), Address(Lower(b.local), Lower(b.domain));
    PrintThenParseIff(x, '@');
    PrintThenParseIff(y, '@');
  }

  /** Two messages with the same three parts in one text have different senders when
      only the one is clean. */
  lemma OtherSender(m: Message, n: Message)
    requires NoAt(m) && !Clean(m) && Clean(n) && '@' !in n.from.domain
    requires m.queueId + "=" + (m.from.domain + "=" + m.from.local)
          == n.queueId + "=" + (n.from.domain + "=" + n.from.local)
    ensures !EqualFold(Text(n.from), Text(m.from))
  {
    if EqualFold(Text(n.from), Text(m.from)) {
      SameSenderParts(n.from, m.from);
      LowerLengths(n.from.domain, m.from.domain);
      LowerLengths(n.from.local, m.from.local);
      LowerKeepsOut(n.from.domain, '=');
      hide Lower, ToString;
      SameFront(m.queueId, m.from.domain + "=" + m.from.local, n.queueId, n.from.domain + "=" + n.from.local);
      LowerKeepsIn(m.from.domain, '=');
    }
  }

  /** The conditions are needed, for every message: with an equals sign in queue id or
      sender domain its address is also that of a clean message with another sender. */
  lemma UncleanCollides(m: Message, domain: string) returns (n: Message)
    requires NoAt(m) && !Clean(m)
    ensures Clean(n) && NoAt(n)
    ensures SrsText(n, domain) == SrsText(m, domain) && !EqualFold(Text(n.from), Text(m.from))
  {
    var text := m.queueId + "=" + m.from.domain + "=" + m.from.local;
    var first, second, rest := SplitTwice(m.queueId, m.from.domain, m.from.local);
    n := Message(first, Address(rest, second), [], []);
    assert first + "=" + second + "=" + rest == text;
    SrsTextIs(m, domain);
    SrsTextIs(n, domain);
    SplitKeepsAtOut(text, first, second, rest);
    assert '@' !in text;
    assert m.queueId + "=" + (m.from.domain + "=" + m.from.local) == text == first + "=" + (second + "=" + rest);
    OtherSender(m, n);
  }

  /** No clean message with another sender shares a key with this one. */
  ghost predicate Unambiguous(m: Message) {
    forall domain: string, n: Message, other: string ::
      Clean(n) && Key(SrsText(m, domain)) == Key(SrsText(n, other)) ==> EqualFold(Text(n.from), Text(m.from))
  }

  /** Of messages without an `@` in their parts, those without an equals sign in queue
      id and sender domain are exactly the unambiguous ones. */
  lemma UnambiguousIff(m: Message)
    requires NoAt(m)
    ensures Unambiguous(m) <==> Clean(m)
  {
    hide Lower, Key, SrsText;
    if Clean(m) {
      forall domain: string, n: Message, other: string |
        Clean(n) && Key(SrsText(m, domain)) == Key(SrsText(n, other))
        ensures EqualFold(Text(n.from), Text(m.from))
      {
        KeysAreInjective(m, domain, n, other);
      }
    } else {
      var n := UncleanCollides(m, "x");
      assert Key(SrsText(m, "x")) == Key(SrsText(n, "x"));
    }
  }

  // ----- Messages that share no address -----

  lemma EqualsAt(a: string, b: string, c: string, k: nat)
    requires '=' !in a && '=' !in b && '=' !in c
    requires k < |a + "=" + b + "=" + c| && (a + "=" + b + "=" + c)[k] == '='
    ensures k == |a| || k == |a| + 1 + |b|
  {
  }

  /** A text with two equals signs splits at them in one way only. */
  lemma SplitOneWay(a: string, b: string, c: string, x: string, y: string, z: string)
    requires a + "=" + b + "=" + c == x + "=" + y + "=" + z
    requires '=' !in a && '=' !in b && '=' !in c
    ensures a == x && b == y && c == z
  {
    var text := a + "=" + b + "=" + c;
    var k, l := |x|, |x| + 1 + |y|;
    assert text == x + "=" + y + "=" + z && text[k] == '=' && text[l] == '=';
    EqualsAt(a, b, c, k);
    EqualsAt(a, b, c, l);
    assert text[..k] == a == x && text[k + 1..l] == b == y && text[l + 1..] == c == z;
  }

  /** The three parts of a message, as its address joins them. */
  function Joined(m: Message): string {
    m.queueId + "=" + m.from.domain + "=" + m.from.local
  }

  predicate NoEquals(m: Message) {
    '=' !in m.queueId && '=' !in m.from.domain && '=' !in m.from.local
  }

  lemma LowerParts3(m: Message)
    requires NoAt(m)
    ensures '@' !in Lower(m.queueId) + "=" + Lower(m.from.domain) + "=" + Lower(m.from.local)
  {
    LowerKeepsOut(m.queueId, '@');
    LowerKeepsOut(m.from.domain, '@');
    LowerKeepsOut(m.from.local, '@');
  }

  lemma Regroup(a: string, b: string, c: string, d: string)
    ensures a + "=" + (b + "=" + (c + "@" + d)) == (a + "=" + b + "=" + c) + "@" + d
  {
  }

  lemma JoinedKey(m: Message, domain: string, n: Message, other: string)
    requires NoAt(m) && NoAt(n) && Key(SrsText(m, domain)) == Key(SrsText(n, other))
    ensures Lower(m.queueId) + "=" + Lower(m.from.domain) + "=" + Lower(m.from.local)
         == Lower(n.queueId) + "=" + Lower(n.from.domain) + "=" + Lower(n.from.local)
  {
    KeyIs(m, domain);
    KeyIs(n, other);
    SamePrefix(Lower(KEY_PREFIX + "SRS0="), LowerText(m, domain), LowerText(n, other));
    LowerParts3(m);
    LowerParts3(n);
    hide Lower;
    var a := Lower(m.queueId) + "=" + Lower(m.from.domain) + "=" + Lower(m.from.local);
    var b := Lower(n.queueId) + "=" + Lower(n.from.domain) + "=" + Lower(n.from.local);
    Regroup(Lower(m.queueId), Lower(m.from.domain), Lower(m.from.local), Lower(domain));
    Regroup(Lower(n.queueId), Lower(n.from.domain), Lower(n.from.local), Lower(other));
    SameParts(a, Lower(domain), b, Lower(other), '@');
  }

  /** No other message without an `@` in its parts shares a key with this one and has
      another sender, or another sender or queue id, whatever the rewrite domains. */
  ghost predicate SoleSender(m: Message) {
    forall domain: string, n: Message, other: string ::
      NoAt(n) && Key(SrsText(m, domain)) == Key(SrsText(n, other)) ==> EqualFold(Text(n.from), Text(m.from))
  }

  ghost predicate SoleOrigin(m: Message) {
    forall domain: string, n: Message, other: string ::
      NoAt(n) && Key(SrsText(m, domain)) == Key(SrsText(n, other)) ==>
        EqualFold(Text(n.from), Text(m.from)) && EqualFold(n.queueId, m.queueId)
  }

  lemma NoEqualsIsSole(m: Message, domain: string, n: Message, other: string)
    requires NoAt(m) && NoEquals(m) && NoAt(n) && Key(SrsText(m, domain)) == Key(SrsText(n, other))
    ensures EqualFold(Text(n.from), Text(m.from)) && EqualFold(n.queueId, m.queueId)
  {
    JoinedKey(m, domain, n, other);
    LowerKeepsOut(m.queueId, '=');
    LowerKeepsOut(m.from.domain, '=');
    LowerKeepsOut(m.from.local, '=');
    LowerTextOf(m.from);
    LowerTextOf(n.from);
    hide Lower, Text;
    SplitOneWay(Lower(m.queueId), Lower(m.from.domain), Lower(m.from.local),
                Lower(n.queueId), Lower(n.from.domain), Lower(n.from.local));
  }

  /** Where only the local part has an equals sign, what stands before it may as well
      belong to the sender's domain. */
  lemma SplitLocal(m: Message, domain: string) returns (n: Message)
    requires NoAt(m) && '=' in m.from.local
    ensures NoAt(n) && SrsText(n, domain) == SrsText(m, domain) && !EqualFold(Text(n.from), Text(m.from))
  {
    var k :| 0 <= k < |m.from.local| && m.from.local[k] == '=';
    var before, after := SplitOnce(m.from.local, k);
    n := Message(m.queueId, Address(after, m.from.domain + "=" + before), [], []);
    AtKeptOut(m.from.local, before, after);
    assert Joined(n) == Joined(m) by {
      assert m.from.domain + "=" + (before + "=" + after) == m.from.domain + "=" + before + "=" + after;
    }
    SrsTextIs(m, domain);
    SrsTextIs(n, domain);
    if EqualFold(Text(n.from), Text(m.from)) {
      SameSenderParts(n.from, m.from);
      LowerLengths(n.from.local, m.from.local);
    }
  }

  /** An equals sign anywhere in the parts lets the address be another sender's. */
  lemma EqualsIsShared(m: Message, domain: string) returns (n: Message)
    requires NoAt(m) && !NoEquals(m)
    ensures NoAt(n) && SrsText(n, domain) == SrsText(m, domain) && !EqualFold(Text(n.from), Text(m.from))
  {
    if Clean(m) {
      n := SplitLocal(m, domain);
    } else {
      n := UncleanCollides(m, domain);
    }
  }

  /** Of messages without an `@` in their parts, those whose address no other such
      message with another sender, or with another sender or queue id, can have are
      exactly those without an equals sign in any part. */
  lemma SoleIff(m: Message)
    requires NoAt(m)
    ensures SoleSender(m) <==> NoEquals(m)
    ensures SoleOrigin(m) <==> NoEquals(m)
  {
    hide Lower, Key, SrsText, Text, NoEquals;
    if NoEquals(m) {
      forall domain: string, n: Message, other: string |
        NoAt(n) && Key(SrsText(m, domain)) == Key(SrsText(n, other))
        ensures EqualFold(Text(n.from), Text(m.from)) && EqualFold(n.queueId, m.queueId)
      {
        NoEqualsIsSole(m, domain, n, other);
      }
    } else {
      var n := EqualsIsShared(m, "x");
      assert Key(SrsText(m, "x")) == Key(SrsText(n, "x"));
    }
  }

  /** For one, three messages with the address `SRS0=1=2=a=c@x`. */
  lemma EqualsSignCollides()
    ensures var m := Message("1", Address("c", "2=a"), [], []);
            var n := Message("1", Address("a=c", "2"), [], []);
            var o := Message("1=2", Address("c", "a"), [], []);
            && Clean(n) && !Clean(m) && !Clean(o)
            && Key(SrsText(m, "x")) == Key(SrsText(n, "x")) == Key(SrsText(o, "x"))
            && !EqualFold(Text(m.from), Text(n.from)) && !EqualFold(Text(m.from), Text(o.from))
  {
    var m := Message("1", Address("c", "2=a"), [], []);
    var n := Message("1", Address("a=c", "2"), [], []);
    var o := Message("1=2", Address("c", "a"), [], []);
    assert SrsText(m, "x") == "SRS0=1=2=a=c@x" == SrsText(n, "x") == SrsText(o, "x");
    assert Lower(Text(m.from))[0] == 'c' && Lower(Text(n.from))[0] == 'a';
    assert Lower(Text(m.from))[2] == '2' && Lower(Text(o.from))[2] == 'a';
    assert '=' in m.from.domain by {
      assert m.from.domain[1] == '=';
    }
    assert '=' in o.queueId by {
      assert o.queueId[1] == '=';
    }
  }

  // ----- Whole runs -----

  datatype Event = Pass(seconds: nat) | Issue(message: Message, domain: string)

  datatype Issued = Issued(message: Message, domain: string, time: int)

  datatype State = State(now: int, entries: map<string, Entry>, issued: seq<Issued>)

  function Next(s: State, e: Event): State {
    match e
    case Pass(seconds) => s.(now := s.now + seconds)
    case Issue(m, domain) =>
      State(s.now, s.entries[Key(SrsText(m, domain)) := Entry(Text(m.from), s.now + SEVEN_DAYS)],
            s.issued + [Issued(m, domain, s.now)])
  }

  function Run(start: int, events: seq<Event>): State {
    if events == [] then State(start, map[], [])
    else Next(Run(start, events[..|events| - 1]), events[|events| - 1])
  }

  function KeyOf(i: Issued): string {
    Key(SrsText(i.message, i.domain))
  }

  /** Every issued address has an entry that lives a week from then on, and holds the
      sender of some message with the same key. */
  ghost predicate Kept(s: State, i: nat)
    requires i < |s.issued|
  {
    && KeyOf(s.issued[i]) in s.entries
    && s.entries[KeyOf(s.issued[i])].expiresAt >= s.issued[i].time + SEVEN_DAYS
    && exists j :: 0 <= j < |s.issued| && KeyOf(s.issued[j]) == KeyOf(s.issued[i])
         && s.entries[KeyOf(s.issued[i])].value == Text(s.issued[j].message.from)
  }

  ghost predicate Inv(s: State) {
    forall i: nat :: i < |s.issued| ==> Kept(s, i) && s.issued[i].time <= s.now
  }

  /** The new entry holds the sender of the new message. */
  lemma SameKeyKeeps(s: State, added: Issued, i: nat)
    requires i <= |s.issued| && added.time == s.now && (i < |s.issued| ==> s.issued[i].time <= s.now)
    requires i < |s.issued| ==> KeyOf(s.issued[i]) == KeyOf(added)
    ensures Kept(Next(s, Issue(added.message, added.domain)), i)
  {
    hide Key, SrsText, ToString;
    var t := Next(s, Issue(added.message, added.domain));
    assert t.issued[|s.issued|] == added;
    assert KeyOf(t.issued[i]) == KeyOf(added);
  }

  lemma OtherKeyKeeps(s: State, added: Issued, i: nat)
    requires i < |s.issued| && Kept(s, i) && KeyOf(s.issued[i]) != KeyOf(added)
    ensures Kept(Next(s, Issue(added.message, added.domain)), i)
  {
    hide Key, SrsText, ToString;
    var t := Next(s, Issue(added.message, added.domain));
    assert t.issued[i] == s.issued[i];
    var j :| 0 <= j < |s.issued| && KeyOf(s.issued[j]) == KeyOf(s.issued[i])
      && s.entries[KeyOf(s.issued[i])].value == Text(s.issued[j].message.from);
    assert t.issued[j] == s.issued[j];
  }

  lemma IssueKeeps(s: State, m: Message, domain: string, i: nat)
    requires Inv(s) && i <= |s.issued|
    ensures Kept(Next(s, Issue(m, domain)), i)
  {
    var n, added := |s.issued|, Issued(m, domain, s.now);
    if i < n {
      assert Kept(s, i);
    }
    if i == n || KeyOf(s.issued[i]) == KeyOf(added) {
      SameKeyKeeps(s, added, i);
    } else {
      OtherKeyKeeps(s, added, i);
    }
  }

  lemma NextKeepsInv(s: State, e: Event)
    requires Inv(s)
    ensures Inv(Next(s, e))
  {
    hide KeyOf, Key, SrsText;
    var t := Next(s, e);
    forall i: nat | i < |t.issued| ensures Kept(t, i) && t.issued[i].time <= t.now {
      match e
      case Pass(_) => assert Kept(s, i);
      case Issue(m, domain) => IssueKeeps(s, m, domain, i);
    }
  }

  lemma {:induction false} RunKeepsInv(start: int, events: seq<Event>)
    ensures Inv(Run(start, events))
    decreases |events|
  {
    if events != [] {
      RunKeepsInv(start, events[..|events| - 1]);
      hide Inv;
      NextKeepsInv(Run(start, events[..|events| - 1]), events[|events| - 1]);
    }
  }

  lemma SameTextSameKey(a: string, b: string)
    ensures EqualFold(a, b) <==> Key(a) == Key(b)
  {
    LowerConcat(KEY_PREFIX, a);
    LowerConcat(KEY_PREFIX, b);
    if Key(a) == Key(b) {
      SamePrefix(Lower(KEY_PREFIX), Lower(a), Lower(b));
    }
  }

  /** The last of the issued addresses with this key. */
  ghost predicate LastOf(issued: seq<Issued>, i: nat, key: string) {
    i < |issued| && KeyOf(issued[i]) == key && forall j :: i < j < |issued| ==> KeyOf(issued[j]) != key
  }

  ghost predicate EntryIsLast(s: State, key: string) {
    if key in s.entries
    then exists i: nat :: LastOf(s.issued, i, key)
           && s.entries[key] == Entry(Text(s.issued[i].message.from), s.issued[i].time + SEVEN_DAYS)
    else forall i :: 0 <= i < |s.issued| ==> KeyOf(s.issued[i]) != key
  }

  lemma IssueIsLast(s: State, m: Message, domain: string, key: string)
    requires EntryIsLast(s, key)
    ensures EntryIsLast(Next(s, Issue(m, domain)), key)
  {
    hide Key, SrsText, ToString;
    var t, n := Next(s, Issue(m, domain)), |s.issued|;
    if KeyOf(t.issued[n]) == key {
      assert LastOf(t.issued, n, key);
    } else if key in s.entries {
      var i: nat :| LastOf(s.issued, i, key)
        && s.entries[key] == Entry(Text(s.issued[i].message.from), s.issued[i].time + SEVEN_DAYS);
      assert LastOf(t.issued, i, key);
    }
  }

  lemma PassIsLast(s: State, seconds: nat, key: string)
    requires EntryIsLast(s, key)
    ensures EntryIsLast(Next(s, Pass(seconds)), key)
  {
  }

  lemma {:induction false} RunIsLast(start: int, events: seq<Event>, key: string)
    ensures EntryIsLast(Run(start, events), key)
    decreases |events|
  {
    if events != [] {
      RunIsLast(start, events[..|events| - 1], key);
      hide EntryIsLast;
      match events[|events| - 1]
      case Pass(seconds) => PassIsLast(Run(start, events[..|events| - 1]), seconds, key);
      case Issue(m, domain) => IssueIsLast(Run(start, events[..|events| - 1]), m, domain, key);
    }
  }

  /** The address is the one that was issued, in any case of letters. */
  ghost predicate Matches(a: Mailbox, x: Issued) {
    EqualFold(Text(a), SrsText(x.message, x.domain))
  }

  lemma MatchesIff(a: Mailbox, x: Issued)
    ensures Matches(a, x) <==> KeyOf(x) == Key(Text(a))
  {
    SameTextSameKey(Text(a), SrsText(x.message, x.domain));
  }

  /** The i-th issued address is the last that this one matches. */
  ghost predicate LastMatch(a: Mailbox, issued: seq<Issued>, i: nat) {
    i < |issued| && Matches(a, issued[i]) && forall j :: i < j < |issued| ==> !Matches(a, issued[j])
  }

  lemma LastMatchIff(a: Mailbox, issued: seq<Issued>, i: nat)
    ensures LastMatch(a, issued, i) <==> LastOf(issued, i, Key(Text(a)))
  {
    hide KeyOf, Key, Matches;
    forall j: nat | j < |issued| ensures Matches(a, issued[j]) <==> KeyOf(issued[j]) == Key(Text(a)) {
      MatchesIff(a, issued[j]);
    }
  }

  /** An address leads to the sender of the last message with this address, in any case
      of letters, for 604800 seconds, and without such a message nowhere. */
  lemma LookupIs(start: int, events: seq<Event>, a: Mailbox)
    ensures var s := Run(start, events);
            || (FoundIn(s.entries, s.now, a) == "" && forall j :: 0 <= j < |s.issued| ==> !Matches(a, s.issued[j]))
            || exists i: nat :: LastMatch(a, s.issued, i)
                 && FoundIn(s.entries, s.now, a)
                    == if s.now < s.issued[i].time + 604_800 then Text(s.issued[i].message.from) else ""
  {
    var s, key := Run(start, events), Key(Text(a));
    RunIsLast(start, events, key);
    hide Run, Key, ToString, KeyOf, Matches, EqualFold;
    if key in s.entries {
      var i: nat :| LastOf(s.issued, i, key)
        && s.entries[key] == Entry(Text(s.issued[i].message.from), s.issued[i].time + SEVEN_DAYS);
      hide LastOf, LastMatch, EntryIsLast;
      LastMatchIff(a, s.issued, i);
    } else {
      hide LastOf, LastMatch;
      forall j: nat | j < |s.issued| ensures !Matches(a, s.issued[j]) {
        MatchesIff(a, s.issued[j]);
      }
    }
  }

  lemma SenderOf(s: State, i: nat) returns (j: nat)
    requires i < |s.issued| && Kept(s, i) && s.now < s.issued[i].time + SEVEN_DAYS
    ensures j < |s.issued| && KeyOf(s.issued[j]) == KeyOf(s.issued[i])
    ensures Live(s.entries, s.now, KeyOf(s.issued[i])) == Text(s.issued[j].message.from)
  {
    hide KeyOf, ToString;
    j :| 0 <= j < |s.issued| && KeyOf(s.issued[j]) == KeyOf(s.issued[i])
      && s.entries[KeyOf(s.issued[i])].value == Text(s.issued[j].message.from);
  }

  lemma LeadsBack(s: State, i: nat, a: Mailbox)
    requires i < |s.issued| && Kept(s, i) && s.now < s.issued[i].time + SEVEN_DAYS
    requires forall k :: 0 <= k < |s.issued| ==> Clean(s.issued[k].message)
    requires EqualFold(Text(a), SrsText(s.issued[i].message, s.issued[i].domain))
    ensures EqualFold(FoundIn(s.entries, s.now, a), Text(s.issued[i].message.from))
  {
    var j := SenderOf(s, i);
    var x, y := s.issued[i], s.issued[j];
    SameTextSameKey(Text(a), SrsText(x.message, x.domain));
    hide Kept, Lower, Clean, SrsText, Key;
    KeysAreInjective(x.message, x.domain, y.message, y.domain);
  }

  lemma SameLength(a: string, b: string)
    requires EqualFold(a, b)
    ensures |a| == |b|
  {
    assert |Lower(a)| == |Lower(b)|;
  }

  /** Within a week the rewritten address, in any case of letters, leads back to its
      sender, up to case of letters, and so is not rejected. */
  lemma IssuedLeadsBack(start: int, events: seq<Event>, i: nat, a: Mailbox)
    requires i < |Run(start, events).issued|
    requires var s := Run(start, events);
             && s.now < s.issued[i].time + SEVEN_DAYS
             && (forall k :: 0 <= k < |s.issued| ==> Clean(s.issued[k].message))
             && EqualFold(Text(a), SrsText(s.issued[i].message, s.issued[i].domain))
    ensures var s := Run(start, events);
            && EqualFold(FoundIn(s.entries, s.now, a), Text(s.issued[i].message.from))
            && (Text(s.issued[i].message.from) != "" ==> FoundIn(s.entries, s.now, a) != "")
  {
    hide Run, SrsText, ToString, Lower, Clean, FoundIn;
    RunKeepsInv(start, events);
    var s := Run(start, events);
    LeadsBack(s, i, a);
    SameLength(FoundIn(s.entries, s.now, a), Text(s.issued[i].message.from));
  }

  /** The queue ids of the issued messages tell them apart. */
  ghost predicate SeparateQueueIds(issued: seq<Issued>) {
    && (forall k :: 0 <= k < |issued| ==> '=' !in issued[k].message.queueId)
    && (forall j, k :: 0 <= j < k < |issued| ==>
          !EqualFold(issued[j].message.queueId, issued[k].message.queueId))
  }

  lemma ExactSender(s: State, i: nat, a: Mailbox)
    requires i < |s.issued| && Kept(s, i) && s.now < s.issued[i].time + SEVEN_DAYS
    requires SeparateQueueIds(s.issued)
    requires EqualFold(Text(a), SrsText(s.issued[i].message, s.issued[i].domain))
    ensures FoundIn(s.entries, s.now, a) == Text(s.issued[i].message.from)
  {
    var j := SenderOf(s, i);
    var x, y := s.issued[i], s.issued[j];
    SameTextSameKey(Text(a), SrsText(x.message, x.domain));
    hide Kept, Lower, SrsText, Key, ToString;
    if i != j {
      assert !EqualFold(x.message.queueId, y.message.queueId);
      QueueIdsSeparate(x.message, x.domain, y.message, y.domain);
    }
  }

  /** With such queue ids, and whatever the senders are, the address leads back within
      a week to exactly what its message had as sender. */
  lemma IssuedLeadsBackExactly(start: int, events: seq<Event>, i: nat, a: Mailbox)
    requires i < |Run(start, events).issued|
    requires var s := Run(start, events);
             && s.now < s.issued[i].time + SEVEN_DAYS && SeparateQueueIds(s.issued)
             && EqualFold(Text(a), SrsText(s.issued[i].message, s.issued[i].domain))
    ensures var s := Run(start, events);
            FoundIn(s.entries, s.now, a) == Text(s.issued[i].message.from)
  {
    hide Run, SrsText, ToString, Lower;
    RunKeepsInv(start, events);
    ExactSender(Run(start, events), i, a);
  }

  lemma SrsLocal(text: string, i: nat)
    requires 5 <= i <= |text| && text[..5] == "SRS0="
    ensures IsSrsLocal(text[..i])
  {
    var local := text[..i];
    assert local[0] == text[..5][0] && local[1] == text[..5][1] && local[2] == text[..5][2];
    assert local[3] == text[..5][3] && local[4] == text[..5][4];
    assert Lower(local[..3]) == "srs";
  }

  lemma AtAfter(text: string, i: nat)
    requires i < |text| && text[i] == '@' && |text| >= 5 && text[..5] == "SRS0="
    ensures i >= 5
  {
    assert text[0] == 'S' && text[1] == 'R' && text[2] == 'S' && text[3] == '0' && text[4] == '=';
  }

  /** The separator of an issued address is not its last character. */
  lemma SrsHasAt(m: Message, domain: string)
    requires domain != ""
    ensures var text := SrsText(m, domain);
            && |text| >= 5 && text[..5] == "SRS0="
            && IndexOf(text, '@') < |text| - 1 && text[IndexOf(text, '@')] == '@'
  {
    hide IndexOf;
    var text := SrsText(m, domain);
    var front := "SRS0=" + m.queueId + "=" + m.from.domain + "=" + m.from.local;
    assert text == front + "@" + domain;
    assert text[|front|] == '@';
    IndexAtMost(text, '@', |front|);
  }

  /** An issued address that comes back as a recipient, parsed, prints as it was, and
      its local part has the pattern of a rewritten one. */
  lemma IssuedComesBack(m: Message, domain: string)
    requires domain != ""
    ensures var a := FromString(SrsText(m, domain), '@');
            Text(a) == SrsText(m, domain) && IsSrsLocal(a.local)
  {
    var text := SrsText(m, domain);
    SrsHasAt(m, domain);
    ParseThenPrintIff(text, '@');
    AtAfter(text, IndexOf(text, '@'));
    SrsLocal(text, IndexOf(text, '@'));
    hide SrsText, IndexOf, IsSrsLocal;
  }
}
