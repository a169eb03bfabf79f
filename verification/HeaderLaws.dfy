/** What the texts and lists of HeaderRewriting are, in terms of their characters and
    places: the replacement of every occurrence, the substitution of all variables at
    once, and which header stands where (message.go, lines 507-586). */
module HeaderLaws {
  import opened HeaderRewriting
  import opened Srs

  // ----- Occurrences -----

  ghost predicate OccursAt(s: string, sub: string, i: nat) {
    i + |sub| <= |s| && s[i..i + |sub|] == sub
  }

  /** The first place is that of a prefix, and later ones are in the rest. */
  lemma OccursWhere(s: string, sub: string, i: nat)
    ensures i == 0 ==> (OccursAt(s, sub, i) <==> StartsWith(s, sub))
    ensures i > 0 && OccursAt(s, sub, i) ==> s != "" && OccursAt(s[1..], sub, i - 1)
    ensures s != "" && OccursAt(s[1..], sub, i) ==> OccursAt(s, sub, i + 1)
  {
    if 0 < i && i + |sub| <= |s| {
      assert s[1..][i - 1..i - 1 + |sub|] == s[i..i + |sub|];
    }
    if i + |sub| + 1 <= |s| {
      assert s[1..][i..i + |sub|] == s[i + 1..i + 1 + |sub|];
    }
  }

  lemma {:induction false} ContainsIff(s: string, sub: string)
    ensures Contains(s, sub) <==> exists i: nat :: OccursAt(s, sub, i)
    decreases |s|
  {
    hide OccursAt, StartsWith;
    OccursWhere(s, sub, 0);
    if s != "" {
      ContainsIff(s[1..], sub);
    }
    if !StartsWith(s, sub) {
      forall i: nat | OccursAt(s, sub, i) ensures s != "" && i > 0 && OccursAt(s[1..], sub, i - 1) {
        OccursWhere(s, sub, i);
      }
      if s != "" {
        forall i: nat | OccursAt(s[1..], sub, i) ensures OccursAt(s, sub, i + 1) {
          OccursWhere(s, sub, i);
        }
      }
    }
  }

  // ----- Replacement -----

  /** The pieces with a separator between each two. */
  ghost function Joined(pieces: seq<string>, separator: string): string
    requires pieces != []
  {
    if |pieces| == 1 then pieces[0] else pieces[0] + separator + Joined(pieces[1..], separator)
  }

  /** The first piece, with the separator if another one follows. */
  ghost function Head(pieces: seq<string>, sub: string): string
    requires pieces != []
  {
    if |pieces| > 1 then pieces[0] + sub else pieces[0]
  }

  /** The text does not occur within a piece, nor does it begin in one and end in the
      text that follows it: every cut is at the first occurrence from there on. */
  ghost predicate CutFirst(pieces: seq<string>, sub: string)
    requires pieces != []
  {
    && (forall i: nat :: OccursAt(Head(pieces, sub), sub, i) ==> i == |pieces[0]|)
    && (|pieces| > 1 ==> CutFirst(pieces[1..], sub))
  }

  lemma CutHere(rest: seq<string>, sub: string)
    requires rest != [] && CutFirst(rest, sub)
    ensures CutFirst([""] + rest, sub)
  {
    assert ([""] + rest)[1..] == rest;
    assert Head([""] + rest, sub) == sub;
  }

  /** The pieces when one more character precedes the first. */
  ghost function Grown(c: char, rest: seq<string>): (pieces: seq<string>)
    requires rest != []
    ensures pieces != [] && |pieces| == |rest| && pieces[0] == [c] + rest[0] && pieces[1..] == rest[1..]
  {
    [[c] + rest[0]] + rest[1..]
  }

  lemma JoinedGrown(c: char, rest: seq<string>, separator: string)
    requires rest != []
    ensures Joined(Grown(c, rest), separator) == [c] + Joined(rest, separator)
  {
    if |rest| > 1 {
      assert [c] + rest[0] + separator + Joined(rest[1..], separator)
          == [c] + (rest[0] + separator + Joined(rest[1..], separator));
    }
  }

  lemma HeadLeads(rest: seq<string>, sub: string)
    requires rest != []
    ensures |Head(rest, sub)| <= |Joined(rest, sub)|
    ensures Joined(rest, sub)[..|Head(rest, sub)|] == Head(rest, sub)
  {
  }

  lemma CutGrown(c: char, rest: seq<string>, sub: string)
    requires rest != [] && CutFirst(rest, sub) && !StartsWith([c] + Joined(rest, sub), sub)
    ensures CutFirst(Grown(c, rest), sub)
  {
    var head, s := Head(rest, sub), [c] + Joined(rest, sub);
    var grown := Head(Grown(c, rest), sub);
    assert grown == [c] + head && grown[1..] == head;
    HeadLeads(rest, sub);
    assert s[..|grown|] == grown;
    assert |sub| <= |grown| ==> s[..|sub|] == grown[..|sub|];
    forall i: nat | OccursAt(grown, sub, i) ensures i == |rest[0]| + 1 {
      OccursWhere(grown, sub, i);
    }
  }

  lemma NoCut(sub: string)
    requires sub != ""
    ensures CutFirst([""], sub)
  {
  }

  /** A text is cut at every first occurrence from the left, and its replacement is
      the same pieces with the new text between them. */
  lemma {:induction false} ReplaceIs(s: string, sub: string, with: string) returns (pieces: seq<string>)
    requires sub != ""
    ensures pieces != [] && CutFirst(pieces, sub)
    ensures s == Joined(pieces, sub) && Replace(s, sub, with) == Joined(pieces, with)
    decreases |s|
  {
    hide CutFirst, Grown, OccursAt;
    if s == "" {
      pieces := [""];
      NoCut(sub);
    } else if StartsWith(s, sub) {
      var rest := ReplaceIs(s[|sub|..], sub, with);
      pieces := [""] + rest;
      assert pieces[1..] == rest;
      assert s == sub + s[|sub|..];
      CutHere(rest, sub);
    } else {
      var rest := ReplaceIs(s[1..], sub, with);
      pieces := Grown(s[0], rest);
      assert s == [s[0]] + s[1..];
      hide Joined;
      CutGrown(s[0], rest, sub);
      JoinedGrown(s[0], rest, sub);
      JoinedGrown(s[0], rest, with);
    }
  }

  // ----- No occurrence is left -----

  /** Where the replacement shows none of the new text, it is the old one. */
  lemma {:induction false} PrefixUntouched(s: string, sub: string, with: string, n: nat)
    requires sub != "" && with != "" && n <= |Replace(s, sub, with)|
    requires forall k :: 0 <= k < n ==> Replace(s, sub, with)[k] !in with
    ensures n <= |s| && s[..n] == Replace(s, sub, with)[..n]
    decreases |s|
  {
    if n > 0 {
      assert Replace(s, sub, with)[0] !in with;
      if !StartsWith(s, sub) {
        var rest := Replace(s[1..], sub, with);
        assert Replace(s, sub, with)[1..] == rest;
        forall k | 0 <= k < n - 1 ensures rest[k] !in with {
          assert Replace(s, sub, with)[k + 1] !in with;
        }
        PrefixUntouched(s[1..], sub, with, n - 1);
      }
    }
  }

  /** No occurrence is left when the new text is not empty and shares no character
      with the old one. */
  lemma {:induction false} NoneLeft(s: string, sub: string, with: string, i: nat)
    requires sub != "" && with != "" && forall c :: c in with ==> c !in sub
    ensures !OccursAt(Replace(s, sub, with), sub, i)
    decreases |s|
  {
    var out := Replace(s, sub, with);
    if OccursAt(out, sub, i) {
      assert out[i] == sub[0];
      assert out[i] !in with;
      if s == "" {
      } else if StartsWith(s, sub) {
        assert forall k :: 0 <= k < |with| ==> out[k] == with[k];
        if i >= |with| {
          assert out[|with|..][i - |with|..i - |with| + |sub|] == out[i..i + |sub|];
          NoneLeft(s[|sub|..], sub, with, i - |with|);
        }
      } else if i > 0 {
        assert out[1..] == Replace(s[1..], sub, with);
        OccursWhere(out, sub, i);
        NoneLeft(s[1..], sub, with, i - 1);
      } else {
        forall k | 0 <= k < |sub| ensures out[k] !in with {
          assert out[k] == sub[k];
        }
        PrefixUntouched(s, sub, with, |sub|);
      }
    }
  }

  // ----- All variables at once -----

  /** A template's value: text without a percent sign, and variables. */
  datatype Piece = Words(text: string) | ClientIp | Hostname | RejectScore | SpamFlag

  ghost predicate Plain(s: string) {
    '%' !in s
  }

  ghost predicate PlainPieces(ps: seq<Piece>) {
    forall p :: p in ps && p.Words? ==> Plain(p.text)
  }

  function NameOf(p: Piece): string {
    match p
    case Words(text) => text
    case ClientIp => "%{clientIp}"
    case Hostname => "%{hostname}"
    case RejectScore => "%{rejectScore}"
    case SpamFlag => "%{spamFlag}"
  }

  /** The value as it is configured. */
  function Written(ps: seq<Piece>): string {
    if ps == [] then "" else NameOf(ps[0]) + Written(ps[1..])
  }

  function MeantOf(p: Piece, clientIp: string, hostname: string, rejectScore: string, spam: bool): string {
    match p
    case Words(text) => text
    case ClientIp => clientIp
    case Hostname => hostname
    case RejectScore => rejectScore
    case SpamFlag => if spam then "YES" else "NO"
  }

  /** The value that is sent: each variable has become its own value. */
  function Meant(ps: seq<Piece>, clientIp: string, hostname: string, rejectScore: string, spam: bool): string {
    if ps == [] then ""
    else MeantOf(ps[0], clientIp, hostname, rejectScore, spam) + Meant(ps[1..], clientIp, hostname, rejectScore, spam)
  }

  /** The value with one variable replaced. */
  function Put(ps: seq<Piece>, x: Piece, value: string): (r: seq<Piece>)
    ensures |r| == |ps| && forall k :: 0 <= k < |ps| ==> r[k] == if ps[k] == x then Words(value) else ps[k]
  {
    seq(|ps|, k requires 0 <= k < |ps| => if ps[k] == x then Words(value) else ps[k])
  }

  /** The letter after the brace. */
  function Letter(x: Piece): char {
    match x
    case Words(_) => '%'
    case ClientIp => 'c'
    case Hostname => 'h'
    case RejectScore => 'r'
    case SpamFlag => 's'
  }

  lemma NameIs(x: Piece)
    ensures x.Words? ==> NameOf(x) == x.text
    ensures !x.Words? ==> |NameOf(x)| > 2 && NameOf(x)[0] == '%' && NameOf(x)[2] == Letter(x)
  {
  }

  lemma RestIsPlain(x: Piece)
    requires !x.Words?
    ensures |NameOf(x)| > 0 && Plain(NameOf(x)[1..])
  {
    var rest := NameOf(x)[1..];
    forall i | 0 <= i < |rest| ensures rest[i] != '%' {
      assert rest[i] == NameOf(x)[i + 1];
    }
  }

  lemma {:induction false} PlainPasses(text: string, rest: string, name: string, value: string)
    requires Plain(text) && name != "" && name[0] == '%'
    ensures Replace(text + rest, name, value) == text + Replace(rest, name, value)
    decreases |text|
  {
    if text == "" {
      assert text + rest == rest;
    } else {
      var all := text + rest;
      assert all[0] == text[0] && text[0] != '%';
      assert all[1..] == text[1..] + rest;
      PlainPasses(text[1..], rest, name, value);
    }
  }

  lemma OtherPasses(name: string, rest: string, x: string, value: string)
    requires |name| > 2 && |x| > 2 && name[2] != x[2] && name[0] == x[0] == '%' && Plain(name[1..])
    ensures Replace(name + rest, x, value) == name + Replace(rest, x, value)
  {
    var all := name + rest;
    assert all[2] == name[2];
    assert all[1..] == name[1..] + rest && [all[0]] + name[1..] == name;
    PlainPasses(name[1..], rest, x, value);
    assert [all[0]] + (name[1..] + Replace(rest, x, value)) == name + Replace(rest, x, value);
  }

  lemma ItselfGoes(rest: string, x: string, value: string)
    requires x != ""
    ensures Replace(x + rest, x, value) == value + Replace(rest, x, value)
  {
    assert (x + rest)[|x|..] == rest;
  }

  lemma PutFirst(p: Piece, rest: string, x: Piece, value: string)
    requires (p.Words? ==> Plain(p.text)) && !x.Words?
    ensures Replace(NameOf(p) + rest, NameOf(x), value)
         == NameOf(if p == x then Words(value) else p) + Replace(rest, NameOf(x), value)
  {
    hide Replace, NameOf;
    NameIs(x);
    NameIs(p);
    NameIs(Words(value));
    if p == x {
      ItselfGoes(rest, NameOf(x), value);
    } else if p.Words? {
      PlainPasses(p.text, rest, NameOf(x), value);
    } else {
      RestIsPlain(p);
      OtherPasses(NameOf(p), rest, NameOf(x), value);
    }
  }

  lemma {:induction false} PutReplaces(ps: seq<Piece>, x: Piece, value: string)
    requires PlainPieces(ps) && Plain(value) && !x.Words?
    ensures NameOf(x) != "" && Replace(Written(ps), NameOf(x), value) == Written(Put(ps, x, value))
    ensures PlainPieces(Put(ps, x, value))
    decreases |ps|
  {
    NameIs(x);
    if ps != [] {
      hide NameOf, Replace;
      PutReplaces(ps[1..], x, value);
      PutFirst(ps[0], Written(ps[1..]), x, value);
      assert Put(ps, x, value)[1..] == Put(ps[1..], x, value);
    }
  }

  lemma {:induction false} AllPut(ps: seq<Piece>, qs: seq<Piece>, clientIp: string, hostname: string,
                                  rejectScore: string, spam: bool)
    requires |qs| == |ps|
    requires forall k :: 0 <= k < |ps| ==> qs[k] == Words(MeantOf(ps[k], clientIp, hostname, rejectScore, spam))
    ensures Written(qs) == Meant(ps, clientIp, hostname, rejectScore, spam)
    decreases |ps|
  {
    if ps != [] {
      hide MeantOf;
      AllPut(ps[1..], qs[1..], clientIp, hostname, rejectScore, spam);
    }
  }

  /** All variables of a template get their values, as if replaced at once, and
      nothing else of it changes, when no value holds a percent sign. */
  lemma SubstitutedIs(ps: seq<Piece>, clientIp: string, hostname: string, rejectScore: string, spam: bool)
    requires PlainPieces(ps) && Plain(clientIp) && Plain(hostname) && Plain(rejectScore)
    ensures Substituted(Written(ps), Vars(clientIp, hostname, rejectScore, spam))
         == Meant(ps, clientIp, hostname, rejectScore, spam)
  {
    hide Replace, Written;
    var flag := if spam then "YES" else "NO";
    var ip := Put(ps, ClientIp, clientIp);
    var host := Put(ip, Hostname, hostname);
    var score := Put(host, RejectScore, rejectScore);
    PutReplaces(ps, ClientIp, clientIp);
    PutReplaces(ip, Hostname, hostname);
    PutReplaces(host, RejectScore, rejectScore);
    PutReplaces(score, SpamFlag, flag);
    AllPut(ps, Put(score, SpamFlag, flag), clientIp, hostname, rejectScore, spam);
  }

  // ----- Which header stands where -----

  /** The elements at some places, in their order. */
  ghost predicate Picks<T>(all: seq<T>, places: seq<nat>, r: seq<T>) {
    && |r| == |places|
    && (forall k :: 0 <= k < |places| ==> places[k] < |all| && r[k] == all[places[k]])
    && (forall j, k :: 0 <= j < k < |places| ==> places[j] < places[k])
  }

  lemma PicksMore<T>(all: seq<T>, places: seq<nat>, r: seq<T>, more: T)
    requires Picks(all, places, r)
    ensures Picks(all + [more], places, r)
    ensures Picks(all + [more], places + [|all|], r + [more])
  {
  }

  /** The headers with a key, in any case of letters, that are not deleted unless
      those are asked for: exactly these, in their order. */
  lemma {:induction false} WithKeyIs(headers: seq<MessageHeader>, key: string, deleted: bool) returns (places: seq<nat>)
    ensures Picks(headers, places, WithKey(headers, key, deleted))
    ensures forall k: nat ::
              k in places <==> k < |headers| && Lower(headers[k].key) == Lower(key) && (deleted || !headers[k].deleted)
    decreases |headers|
  {
    if headers == [] {
      places := [];
    } else {
      hide Lower;
      var n := |headers| - 1;
      places := WithKeyIs(headers[..n], key, deleted);
      assert headers == headers[..n] + [headers[n]];
      PicksMore(headers[..n], places, WithKey(headers[..n], key, deleted), headers[n]);
      if Lower(headers[n].key) == Lower(key) && (deleted || !headers[n].deleted) {
        places := places + [n];
      }
    }
  }

  /** The headers with a value: exactly these, in their order. */
  lemma {:induction false} NonEmptyIs(hs: seq<MessageHeader>) returns (places: seq<nat>)
    ensures Picks(hs, places, NonEmpty(hs))
    ensures forall k: nat :: k in places <==> k < |hs| && hs[k].value != ""
    decreases |hs|
  {
    if hs == [] {
      places := [];
    } else {
      var n := |hs| - 1;
      places := NonEmptyIs(hs[..n]);
      assert hs == hs[..n] + [hs[n]];
      PicksMore(hs[..n], places, NonEmpty(hs[..n]), hs[n]);
      if hs[n].value != "" {
        places := places + [n];
      }
    }
  }

  lemma DeletionsMore(headers: seq<MessageHeader>, hs: seq<MessageHeader>, h: MessageHeader)
    ensures Deletions(headers, hs + [h])
         == Deletions(headers, hs) + if h.flagUnique then WithKey(headers, h.key, false) else []
  {
    hide WithKey;
    assert (hs + [h])[..|hs + [h]| - 1] == hs;
  }

  /** The deletions of a list are those of its parts, one after the other. */
  lemma {:induction false} DeletionsJoin(headers: seq<MessageHeader>, a: seq<MessageHeader>, b: seq<MessageHeader>)
    ensures Deletions(headers, a + b) == Deletions(headers, a) + Deletions(headers, b)
    decreases |b|
  {
    if b == [] {
      assert a + b == a;
    } else {
      hide *;
      var init, last := b[..|b| - 1], b[|b| - 1];
      assert b == init + [last] && a + b == a + init + [last];
      DeletionsJoin(headers, a, init);
      DeletionsMore(headers, init, last);
      DeletionsMore(headers, a + init, last);
    }
  }

  /** One header asks for the deletion of those with its key, if it has the flag. */
  lemma DeletionsOfOne(headers: seq<MessageHeader>, h: MessageHeader) returns (places: seq<nat>)
    ensures Picks(headers, places, Deletions(headers, [h]))
    ensures forall k: nat ::
              k in places <==>
                h.flagUnique && k < |headers| && Lower(headers[k].key) == Lower(h.key) && !headers[k].deleted
  {
    places := [];
    if h.flagUnique {
      places := WithKeyIs(headers, h.key, false);
    }
    assert Deletions(headers, [h][..0]) == [];
  }

  /** What holds no recipient stays as it is, in its place. */
  lemma OthersStay(hs: seq<MessageHeader>, rcpt: seq<string>, insert: bool, id: string, k: nat)
    requires k < |hs| && (rcpt != [] || forall h :: h in hs ==> !IsTemplate(h))
    requires forall i: nat :: !OccursAt(hs[k].value, "%{recipient}", i)
    ensures k < |Expanded(hs, rcpt, insert, id)| && Expanded(hs, rcpt, insert, id)[k] == hs[k]
  {
    ContainsIff(hs[k].value, "%{recipient}");
    hide Contains;
  }

  function Times(x: nat, y: nat): nat {
    x * y
  }

  /** Where the j-th instance of the k-th header stands. */
  function InstancePlace(hs: seq<MessageHeader>, rcpt: seq<string>, k: nat, j: nat): nat
    requires rcpt != [] && k <= |hs|
  {
    if j == 0 then k else |hs| + Times(Templates(hs[..k]), |rcpt| - 1) + j - 1
  }

  lemma PlaceIs(hs: seq<MessageHeader>, rcpt: seq<string>, k: nat, j: nat)
    requires rcpt != [] && k <= |hs|
    ensures InstancePlace(hs, rcpt, k, j) == if j == 0 then k else PlaceOf(hs, rcpt, k) + j - 1
  {
    hide Templates, AllOthers;
    OthersLength(hs[..k], rcpt);
  }

  /** Each template has an instance for each recipient, whose text is in place of every
      occurrence of the variable: the first one in its place, and the others after all
      headers and after those of the templates before it. Only the first keeps the flag. */
  lemma InstanceIs(hs: seq<MessageHeader>, rcpt: seq<string>, insert: bool, id: string, k: nat, i: nat, j: nat)
    requires rcpt != [] && k < |hs| && j < |rcpt| && OccursAt(hs[k].value, "%{recipient}", i)
    ensures var place := InstancePlace(hs, rcpt, k, j);
            && place < |Expanded(hs, rcpt, insert, id)|
            && Expanded(hs, rcpt, insert, id)[place]
               == MessageHeader(hs[k].key, Replace(hs[k].value, "%{recipient}", rcpt[j]),
                                j == 0 && hs[k].flagUnique, j == 0 && hs[k].deleted)
  {
    ContainsIff(hs[k].value, "%{recipient}");
    OneInstanceEach(hs, rcpt, insert, id, k, j);
    PlaceIs(hs, rcpt, k, j);
    hide *;
  }

  /** A missing message id is added at the end. */
  lemma MessageIdLast(hs: seq<MessageHeader>, rcpt: seq<string>, id: string)
    requires id != "" && (rcpt != [] || forall h :: h in hs ==> !IsTemplate(h))
    ensures Expanded(hs, rcpt, true, id)
         == Expanded(hs, rcpt, false, "") + [MessageHeader("Message-Id", id, false, false)]
    ensures Expanded(hs, rcpt, true, "") == Expanded(hs, rcpt, false, id) == Expanded(hs, rcpt, false, "")
  {
  }
}
