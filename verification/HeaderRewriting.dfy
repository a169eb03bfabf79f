/** The headers that are added to a message and deleted from it: templates are
    expanded per recipient, substituted, and filtered in place (message.go, lines
    507-586). */
module HeaderRewriting {
  import opened Srs

  datatype MessageHeader = MessageHeader(key: string, value: string, flagUnique: bool, deleted: bool)

  const RECIPIENT := "%{recipient}"

  // ----- Text -----

  predicate StartsWith(s: string, sub: string) {
    |sub| <= |s| && s[..|sub|] == sub
  }

  predicate Contains(s: string, sub: string) {
    if StartsWith(s, sub) then true else if s == "" then false else Contains(s[1..], sub)
  }

  /** Every occurrence, from left to right, none inside another. */
  function Replace(s: string, sub: string, with: string): string
    requires sub != ""
  {
    if s == "" then ""
    else if StartsWith(s, sub) then with + Replace(s[|sub|..], sub, with)
    else [s[0]] + Replace(s[1..], sub, with)
  }

  /** What the variables of a template stand for. */
  datatype Vars = Vars(clientIp: string, hostname: string, rejectScore: string, spam: bool)

  function Substituted(s: string, v: Vars): string {
    var ip := Replace(s, "%{clientIp}", v.clientIp);
    var host := Replace(ip, "%{hostname}", v.hostname);
    var score := Replace(host, "%{rejectScore}", v.rejectScore);
    Replace(score, "%{spamFlag}", if v.spam then "YES" else "NO")
  }

  // ----- The expected lists -----

  predicate IsTemplate(h: MessageHeader) {
    Contains(h.value, RECIPIENT)
  }

  function For(h: MessageHeader, r: string): string {
    Replace(h.value, RECIPIENT, r)
  }

  /** In place of each template stands its instance for the first recipient. */
  function Firsts(hs: seq<MessageHeader>, rcpt: seq<string>): (r: seq<MessageHeader>)
    requires rcpt != [] || forall h :: h in hs ==> !IsTemplate(h)
    ensures |r| == |hs|
    ensures forall k :: 0 <= k < |hs| ==>
              r[k] == if IsTemplate(hs[k]) then hs[k].(value := For(hs[k], rcpt[0])) else hs[k]
  {
    seq(|hs|, k requires 0 <= k < |hs| => if IsTemplate(hs[k]) then hs[k].(value := For(hs[k], rcpt[0])) else hs[k])
  }

  /** The instances of one header for the other recipients, which lose the flag. */
  function Others(h: MessageHeader, rcpt: seq<string>): (r: seq<MessageHeader>)
    ensures |r| == if IsTemplate(h) && rcpt != [] then |rcpt| - 1 else 0
    ensures forall j :: 0 <= j < |r| ==> r[j] == MessageHeader(h.key, For(h, rcpt[j + 1]), false, false)
  {
    if !IsTemplate(h) || rcpt == [] then []
    else seq(|rcpt| - 1, j requires 0 <= j < |rcpt| - 1 => MessageHeader(h.key, For(h, rcpt[j + 1]), false, false))
  }

  function AllOthers(hs: seq<MessageHeader>, rcpt: seq<string>): seq<MessageHeader> {
    if hs == [] then [] else AllOthers(hs[..|hs| - 1], rcpt) + Others(hs[|hs| - 1], rcpt)
  }

  function Inserted(insert: bool, id: string): seq<MessageHeader> {
    if insert && id != "" then [MessageHeader("Message-Id", id, false, false)] else []
  }

  function Expanded(hs: seq<MessageHeader>, rcpt: seq<string>, insert: bool, id: string): seq<MessageHeader>
    requires rcpt != [] || forall h :: h in hs ==> !IsTemplate(h)
  {
    Firsts(hs, rcpt) + AllOthers(hs, rcpt) + Inserted(insert, id)
  }

  function AllSubstituted(hs: seq<MessageHeader>, v: Vars): (r: seq<MessageHeader>)
    ensures |r| == |hs| && forall k :: 0 <= k < |hs| ==> r[k] == hs[k].(value := Substituted(hs[k].value, v))
  {
    seq(|hs|, k requires 0 <= k < |hs| => hs[k].(value := Substituted(hs[k].value, v)))
  }

  function NonEmpty(hs: seq<MessageHeader>): seq<MessageHeader> {
    if hs == [] then []
    else NonEmpty(hs[..|hs| - 1]) + if hs[|hs| - 1].value == "" then [] else [hs[|hs| - 1]]
  }

  lemma NonEmptyNone(hs: seq<MessageHeader>)
    ensures NonEmpty(hs[..0]) + hs[0..] == hs && NonEmpty(hs[..0]) == []
  {
  }

  lemma NonEmptyMore(hs: seq<MessageHeader>, i: nat)
    requires i < |hs|
    ensures var before, after := NonEmpty(hs[..i]), NonEmpty(hs[..i + 1]);
            && (before + hs[i..])[|before|] == hs[i]
            && (if hs[i].value != "" then |after| == |before| + 1 && after + hs[i + 1..] == before + hs[i..]
                else after == before
                     && after + hs[i + 1..] == (before + hs[i..])[..|before|] + (before + hs[i..])[|before| + 1..])
  {
    assert hs[..i + 1][..i] == hs[..i];
    var before := NonEmpty(hs[..i]);
    hide NonEmpty;
    assert hs[i..] == [hs[i]] + hs[i + 1..];
    assert before + hs[i..] == before + [hs[i]] + hs[i + 1..];
  }

  /** The headers of the message with a key. */
  function WithKey(headers: seq<MessageHeader>, key: string, includeDeleted: bool): seq<MessageHeader> {
    if headers == [] then []
    else
      var last := headers[|headers| - 1];
      WithKey(headers[..|headers| - 1], key, includeDeleted)
      + if EqualFold(last.key, key) && (includeDeleted || !last.deleted) then [last] else []
  }

  function Deletions(headers: seq<MessageHeader>, hs: seq<MessageHeader>): seq<MessageHeader> {
    if hs == [] then []
    else
      var last := hs[|hs| - 1];
      Deletions(headers, hs[..|hs| - 1]) + if last.flagUnique then WithKey(headers, last.key, false) else []
  }

  /** The list after the first loop has handled k headers. */
  function Partly(hs: seq<MessageHeader>, rcpt: seq<string>, k: nat): seq<MessageHeader>
    requires k <= |hs| && (rcpt != [] || forall h :: h in hs ==> !IsTemplate(h))
  {
    Firsts(hs, rcpt)[..k] + hs[k..] + AllOthers(hs[..k], rcpt)
  }

  lemma PartlyNone(hs: seq<MessageHeader>, rcpt: seq<string>)
    requires rcpt != [] || forall h :: h in hs ==> !IsTemplate(h)
    ensures Partly(hs, rcpt, 0) == hs
  {
  }

  lemma PartlyAll(hs: seq<MessageHeader>, rcpt: seq<string>)
    requires rcpt != [] || forall h :: h in hs ==> !IsTemplate(h)
    ensures Partly(hs, rcpt, |hs|) == Firsts(hs, rcpt) + AllOthers(hs, rcpt)
  {
    hide IsTemplate, AllOthers;
    var firsts := Firsts(hs, rcpt);
    assert hs[..|hs|] == hs && firsts[..|hs|] == firsts && hs[|hs|..] == [];
  }

  lemma NoOthers(h: MessageHeader, rcpt: seq<string>)
    requires !IsTemplate(h)
    ensures Others(h, rcpt) == []
  {
  }

  lemma PartlyMore(hs: seq<MessageHeader>, rcpt: seq<string>, k: nat)
    requires k < |hs| && (rcpt != [] || forall h :: h in hs ==> !IsTemplate(h))
    ensures k < |Partly(hs, rcpt, k)| && Partly(hs, rcpt, k)[k] == hs[k]
    ensures IsTemplate(hs[k]) ==>
              rcpt != []
              && Partly(hs, rcpt, k + 1)
                 == (Partly(hs, rcpt, k) + Others(hs[k], rcpt))[k := hs[k].(value := For(hs[k], rcpt[0]))]
    ensures !IsTemplate(hs[k]) ==> Partly(hs, rcpt, k + 1) == Partly(hs, rcpt, k)
  {
    hide IsTemplate, For, Others;
    assert hs[..k + 1][..k] == hs[..k];
    assert hs[k] in hs;
    if !IsTemplate(hs[k]) {
      NoOthers(hs[k], rcpt);
    }
  }

  lemma ForIs(h: MessageHeader, r: string)
    ensures For(h, r) == Replace(h.value, RECIPIENT, r)
  {
  }

  // ----- The message -----

  class Message {
    var headers: seq<MessageHeader>
    var addHeaders: seq<MessageHeader>
    var rcpt: seq<string>
    var injectMessageId: string

    constructor (headers: seq<MessageHeader>, templates: seq<MessageHeader>, rcpt: seq<string>, id: string)
      ensures this.headers == headers && addHeaders == templates && this.rcpt == rcpt && injectMessageId == id
    {
      this.headers, addHeaders, this.rcpt, injectMessageId := headers, templates, rcpt, id;
    }

    method GetHeader(key: string, includeDeleted: bool) returns (out: seq<MessageHeader>)
      ensures out == WithKey(headers, key, includeDeleted)
    {
      out := [];
      for i := 0 to |headers|
        invariant out == WithKey(headers[..i], key, includeDeleted)
      {
        assert headers[..i + 1][..i] == headers[..i];
        if EqualFold(headers[i].key, key) && (includeDeleted || !headers[i].deleted) {
          out := out + [headers[i]];
        }
      }
      assert headers[..|headers|] == headers;
    }

    /** The inner loop, over the recipients after the first. */
    method AppendOthers(k: nat, v: MessageHeader)
      requires k < |addHeaders| && addHeaders[k].value == v.value && IsTemplate(v) && rcpt != []
      modifies this`addHeaders
      ensures addHeaders == old(addHeaders) + Others(v, rcpt)
    {
      for j := 1 to |rcpt|
        invariant addHeaders == old(addHeaders) + Others(v, rcpt)[..j - 1]
      {
        var value := Replace(addHeaders[k].value, RECIPIENT, rcpt[j]);
        assert Others(v, rcpt)[..j] == Others(v, rcpt)[..j - 1] + [Others(v, rcpt)[j - 1]];
        addHeaders := addHeaders + [MessageHeader(v.key, value, false, false)];
      }
      assert Others(v, rcpt)[..|rcpt| - 1] == Others(v, rcpt);
    }

    /** The first loop: it appends to the list whose earlier part it rewrites. */
    method ExpandRecipients()
      requires rcpt != [] || forall h :: h in addHeaders ==> !IsTemplate(h)
      modifies this`addHeaders
      ensures addHeaders == Firsts(old(addHeaders), rcpt) + AllOthers(old(addHeaders), rcpt)
    {
      hide IsTemplate, Firsts, Others, AllOthers, For, Partly;
      var hs := addHeaders;
      PartlyNone(hs, rcpt);
      for k := 0 to |hs|
        invariant addHeaders == Partly(hs, rcpt, k)
      {
        var v := hs[k];
        PartlyMore(hs, rcpt, k);
        if IsTemplate(v) {
          AppendOthers(k, v);
          var first := Replace(addHeaders[k].value, RECIPIENT, rcpt[0]);
          ForIs(v, rcpt[0]);
          addHeaders := addHeaders[k := addHeaders[k].(value := first)];
        }
      }
      PartlyAll(hs, rcpt);
    }

    /** The second loop: deletions are collected whatever the value becomes. */
    method SubstituteAll(vars: Vars) returns (del: seq<MessageHeader>)
      modifies this`addHeaders
      ensures addHeaders == AllSubstituted(old(addHeaders), vars)
      ensures del == Deletions(headers, old(addHeaders))
    {
      hide Substituted;
      del := [];
      var hs := addHeaders;
      for k := 0 to |hs|
        invariant |addHeaders| == |hs|
        invariant forall i :: 0 <= i < k ==> addHeaders[i] == hs[i].(value := Substituted(hs[i].value, vars))
        invariant forall i :: k <= i < |hs| ==> addHeaders[i] == hs[i]
        invariant del == Deletions(headers, hs[..k])
      {
        assert hs[..k + 1][..k] == hs[..k];
        if hs[k].flagUnique {
          var found := GetHeader(hs[k].key, false);
          del := del + found;
        }
        addHeaders := addHeaders[k := addHeaders[k].(value := Substituted(addHeaders[k].value, vars))];
      }
      assert hs[..|hs|] == hs;
    }

    /** The third loop: it deletes from the list over whose first length it runs,
        and never indexes out of range, so that its branch for that is dead. */
    method DeleteEmpty()
      modifies this`addHeaders
      ensures addHeaders == NonEmpty(old(addHeaders))
    {
      hide NonEmpty;
      var n, deleted := |addHeaders|, 0;
      ghost var hs := addHeaders;
      NonEmptyNone(hs);
      for i := 0 to n
        invariant 0 <= deleted <= i && |NonEmpty(hs[..i])| == i - deleted
        invariant addHeaders == NonEmpty(hs[..i]) + hs[i..]
      {
        NonEmptyMore(hs, i);
        var k := i - deleted;
        if addHeaders[k].value != "" {
          continue;
        }
        deleted := deleted + 1;
        addHeaders := addHeaders[..k] + addHeaders[k + 1..];
      }
      assert hs[..n] == hs;
    }

    /** messageGetMutableHeaders */
    method GetMutableHeaders(insertMissingMessageId: bool, vars: Vars)
      returns (add: seq<MessageHeader>, del: seq<MessageHeader>)
      requires rcpt != [] || forall h :: h in addHeaders ==> !IsTemplate(h)
      modifies this`addHeaders
      ensures var expanded := Expanded(old(addHeaders), rcpt, insertMissingMessageId, injectMessageId);
              add == NonEmpty(AllSubstituted(expanded, vars)) && del == Deletions(headers, expanded)
      ensures addHeaders == add
    {
      ExpandRecipients();
      if insertMissingMessageId && injectMessageId != "" {
        addHeaders := addHeaders + [MessageHeader("Message-Id", injectMessageId, false, false)];
      }
      assert addHeaders == Expanded(old(addHeaders), rcpt, insertMissingMessageId, injectMessageId);
      del := SubstituteAll(vars);
      DeleteEmpty();
      add := addHeaders;
    }
  }

  // ----- What the lists are -----

  function Templates(hs: seq<MessageHeader>): nat {
    if hs == [] then 0 else Templates(hs[..|hs| - 1]) + if IsTemplate(hs[|hs| - 1]) then 1 else 0
  }

  lemma LengthMore(hs: seq<MessageHeader>, rcpt: seq<string>)
    requires hs != [] && rcpt != []
    ensures var init := hs[..|hs| - 1];
            if IsTemplate(hs[|hs| - 1])
            then Templates(hs) == Templates(init) + 1
                 && |AllOthers(hs, rcpt)| == |AllOthers(init, rcpt)| + |rcpt| - 1
            else Templates(hs) == Templates(init) && |AllOthers(hs, rcpt)| == |AllOthers(init, rcpt)|
  {
    hide IsTemplate;
  }

  lemma OneMoreTimes(length: nat, x: nat, n: nat, more: bool)
    requires length == x * n
    ensures if more then length + n == (x + 1) * n else length == x * n
  {
  }

  lemma {:induction false} OthersLength(hs: seq<MessageHeader>, rcpt: seq<string>)
    requires rcpt != []
    ensures |AllOthers(hs, rcpt)| == Templates(hs) * (|rcpt| - 1)
    decreases |hs|
  {
    if hs != [] {
      hide *;
      var init := hs[..|hs| - 1];
      OthersLength(init, rcpt);
      LengthMore(hs, rcpt);
      OneMoreTimes(|AllOthers(init, rcpt)|, Templates(init), |rcpt| - 1, IsTemplate(hs[|hs| - 1]));
    }
  }

  /** Where the other instances of the k-th header start. */
  function PlaceOf(hs: seq<MessageHeader>, rcpt: seq<string>, k: nat): nat
    requires k <= |hs|
  {
    |hs| + |AllOthers(hs[..k], rcpt)|
  }

  lemma {:induction false} OthersWithin(hs: seq<MessageHeader>, rcpt: seq<string>, k: nat, j: nat)
    requires k < |hs| && j < |Others(hs[k], rcpt)|
    ensures |AllOthers(hs[..k], rcpt)| + j < |AllOthers(hs, rcpt)|
    ensures AllOthers(hs, rcpt)[|AllOthers(hs[..k], rcpt)| + j] == Others(hs[k], rcpt)[j]
    decreases |hs|
  {
    hide IsTemplate, Others;
    var init := hs[..|hs| - 1];
    if k < |hs| - 1 {
      assert init[..k] == hs[..k];
      OthersWithin(init, rcpt, k, j);
    }
  }

  /** Each template has exactly one instance for each recipient: for the first in its
      own place, for the others at places that no other instance has, and nothing
      else is in the expanded list but the other headers and the message id. */
  lemma OneInstanceEach(hs: seq<MessageHeader>, rcpt: seq<string>, insert: bool, id: string, k: nat, j: nat)
    requires rcpt != [] && k < |hs| && IsTemplate(hs[k]) && j < |rcpt|
    ensures var expanded := Expanded(hs, rcpt, insert, id);
            var place := if j == 0 then k else PlaceOf(hs, rcpt, k) + j - 1;
            && place < |expanded|
            && expanded[place] == MessageHeader(hs[k].key, Replace(hs[k].value, "%{recipient}", rcpt[j]),
                                                j == 0 && hs[k].flagUnique, j == 0 && hs[k].deleted)
  {
    hide IsTemplate, Replace, AllOthers, Inserted;
    var firsts, others, inserted := Firsts(hs, rcpt), AllOthers(hs, rcpt), Inserted(insert, id);
    if j == 0 {
      assert (firsts + others + inserted)[k] == firsts[k];
    } else {
      OthersWithin(hs, rcpt, k, j - 1);
      var x := |AllOthers(hs[..k], rcpt)| + j - 1;
      assert (firsts + others + inserted)[|hs| + x] == others[x];
    }
  }

  lemma ExpandedLength(hs: seq<MessageHeader>, rcpt: seq<string>, insert: bool, id: string)
    requires rcpt != []
    ensures |Expanded(hs, rcpt, insert, id)|
         == |hs| + Templates(hs) * (|rcpt| - 1) + (if insert && id != "" then 1 else 0)
  {
    OthersLength(hs, rcpt);
  }

  lemma {:induction false} PlacesGrow(hs: seq<MessageHeader>, rcpt: seq<string>, j: nat, k: nat)
    requires j < k <= |hs|
    ensures PlaceOf(hs, rcpt, j) + |Others(hs[j], rcpt)| <= PlaceOf(hs, rcpt, k)
    decreases k
  {
    hide Others;
    assert hs[..k][..k - 1] == hs[..k - 1];
    if j < k - 1 {
      PlacesGrow(hs, rcpt, j, k - 1);
    }
  }

  /** Instances of different templates are at different places. */
  lemma PlacesDiffer(hs: seq<MessageHeader>, rcpt: seq<string>, j: nat, k: nat, p: nat, q: nat)
    requires j < k < |hs| && p < |Others(hs[j], rcpt)|
    ensures PlaceOf(hs, rcpt, j) + p < PlaceOf(hs, rcpt, k) + q
  {
    PlacesGrow(hs, rcpt, j, k);
  }

  lemma {:induction false} OnlyNonEmpty(hs: seq<MessageHeader>)
    ensures forall h :: h in NonEmpty(hs) ==> h in hs && h.value != ""
    decreases |hs|
  {
    if hs != [] {
      OnlyNonEmpty(hs[..|hs| - 1]);
    }
  }

  /** The filter keeps exactly the headers with a value, in order. */
  lemma {:induction false} NonEmptyKeeps(hs: seq<MessageHeader>, k: nat)
    requires k < |hs|
    ensures |NonEmpty(hs[..k])| <= |NonEmpty(hs)|
    ensures hs[k].value != "" ==>
              |NonEmpty(hs[..k])| < |NonEmpty(hs)| && NonEmpty(hs)[|NonEmpty(hs[..k])|] == hs[k]
    ensures forall h :: h in NonEmpty(hs) ==> h in hs && h.value != ""
    decreases |hs|
  {
    var init := hs[..|hs| - 1];
    if k < |hs| - 1 {
      assert init[..k] == hs[..k];
      NonEmptyKeeps(init, k);
    } else {
      OnlyNonEmpty(init);
    }
    OnlyNonEmpty(hs);
  }

  lemma {:induction false} WithKeyHas(headers: seq<MessageHeader>, key: string, h: MessageHeader)
    ensures h in WithKey(headers, key, false) <==> h in headers && EqualFold(h.key, key) && !h.deleted
    decreases |headers|
  {
    if headers != [] {
      WithKeyHas(headers[..|headers| - 1], key, h);
      assert headers == headers[..|headers| - 1] + [headers[|headers| - 1]];
    }
  }

  /** A header is deleted exactly when an added one with the unique flag has its key,
      whether or not that one is added in the end. */
  lemma {:induction false} DeletedIff(headers: seq<MessageHeader>, hs: seq<MessageHeader>, h: MessageHeader)
    ensures h in Deletions(headers, hs)
       <==> h in headers && !h.deleted && exists k :: 0 <= k < |hs| && hs[k].flagUnique && EqualFold(h.key, hs[k].key)
    decreases |hs|
  {
    hide EqualFold, WithKey;
    if hs != [] {
      var init, last := hs[..|hs| - 1], hs[|hs| - 1];
      DeletedIff(headers, init, h);
      WithKeyHas(headers, last.key, h);
      if k :| 0 <= k < |init| && init[k].flagUnique && EqualFold(h.key, init[k].key) {
        assert hs[k] == init[k];
      }
    }
  }

  lemma {:induction false} OthersUnflagged(hs: seq<MessageHeader>, rcpt: seq<string>)
    ensures forall k :: 0 <= k < |AllOthers(hs, rcpt)| ==> !AllOthers(hs, rcpt)[k].flagUnique
    decreases |hs|
  {
    if hs != [] {
      OthersUnflagged(hs[..|hs| - 1], rcpt);
    }
  }

  /** Only templates from the configuration carry the flag, each once. */
  lemma FlagsOfTemplates(hs: seq<MessageHeader>, rcpt: seq<string>, insert: bool, id: string, h: MessageHeader,
                         headers: seq<MessageHeader>)
    requires rcpt != [] || forall t :: t in hs ==> !IsTemplate(t)
    ensures h in Deletions(headers, Expanded(hs, rcpt, insert, id))
       <==> h in headers && !h.deleted && exists k :: 0 <= k < |hs| && hs[k].flagUnique && EqualFold(h.key, hs[k].key)
  {
    var expanded := Expanded(hs, rcpt, insert, id);
    DeletedIff(headers, expanded, h);
    OthersUnflagged(hs, rcpt);
    hide EqualFold;
    forall k | 0 <= k < |hs| ensures expanded[k].key == hs[k].key && expanded[k].flagUnique == hs[k].flagUnique {
    }
    forall k | |hs| <= k < |expanded| ensures !expanded[k].flagUnique {
    }
  }
}
