/** Sender rewriting: whether a message was forwarded and through which domain, the
    rewritten address, its store, and the way back (srs.go, lines 42-214). Letters
    are those of ASCII. */
module Srs {
  import opened Addresses

  type Mailbox = Address<char>

  datatype Header = Header(key: string, value: string)
  datatype Message = Message(queueId: string, from: Mailbox, rcpt: seq<Mailbox>, headers: seq<Header>)

  const SEVEN_DAYS: nat := 7 * 24 * 3600
  const KEY_PREFIX := "cluegetter--srs-entry-"

  function LowerChar(c: char): char {
    if 'A' <= c <= 'Z' then c + 32 as char else c
  }

  function Lower(s: string): (r: string)
    ensures |r| == |s| && forall i :: 0 <= i < |s| ==> r[i] == LowerChar(s[i])
  {
    seq(|s|, i requires 0 <= i < |s| => LowerChar(s[i]))
  }

  /** Each of the 26 capitals becomes its small letter, and all else stays. */
  lemma LowerLetters(c: char)
    ensures LowerChar(c) as int == c as int + if 65 <= c as int <= 90 then 32 else 0
    ensures Lower("AMZ amz@[`{09=") == "amz amz@[`{09="
  {
  }

  predicate EqualFold(a: string, b: string) {
    Lower(a) == Lower(b)
  }

  function Text(a: Mailbox): string {
    ToString(a, '@')
  }

  // ----- Forwarding -----

  /** The values of the headers that name the recipients. */
  function RecipientValues(headers: seq<Header>, name: string): seq<string> {
    if headers == [] then []
    else
      var init, last := RecipientValues(headers[..|headers| - 1], name), headers[|headers| - 1];
      if EqualFold(last.key, name) then init + [last.value] else init
  }

  ghost predicate Named(values: seq<string>, r: Mailbox) {
    exists i :: 0 <= i < |values| && EqualFold(values[i], Text(r))
  }

  /** Forwarded: the headers name recipients, but not every one there is. */
  ghost predicate Forwarded(m: Message, name: string) {
    var values := RecipientValues(m.headers, name);
    values != [] && exists i :: 0 <= i < |m.rcpt| && !Named(values, m.rcpt[i])
  }

  lemma {:induction false} ValuesAre(headers: seq<Header>, name: string, v: string)
    ensures v in RecipientValues(headers, name)
       <==> exists i :: 0 <= i < |headers| && EqualFold(headers[i].key, name) && headers[i].value == v
    decreases |headers|
  {
    hide EqualFold;
    if headers != [] {
      var init := headers[..|headers| - 1];
      ValuesAre(init, name, v);
      if i :| 0 <= i < |init| && EqualFold(init[i].key, name) && init[i].value == v {
        assert headers[i] == init[i];
      }
      if i :| 0 <= i < |headers| && EqualFold(headers[i].key, name) && headers[i].value == v {
        assert i < |init| ==> init[i] == headers[i];
      }
    }
  }

  /** Some header of that name is there, and for some recipient none holds it, in any
      case of letters. */
  lemma ForwardedIff(m: Message, name: string)
    ensures Forwarded(m, name)
       <==> && (exists h :: h in m.headers && EqualFold(h.key, name))
            && exists i :: 0 <= i < |m.rcpt| && forall h :: h in m.headers && EqualFold(h.key, name) ==>
                             !EqualFold(h.value, Text(m.rcpt[i]))
  {
    var values := RecipientValues(m.headers, name);
    forall v: string
      ensures v in values <==> exists i :: 0 <= i < |m.headers| && EqualFold(m.headers[i].key, name)
                                             && m.headers[i].value == v
    {
      ValuesAre(m.headers, name, v);
    }
    hide EqualFold, RecipientValues;
    if h :| h in m.headers && EqualFold(h.key, name) {
      assert h.value in values;
    }
    if values != [] {
      assert values[0] in values;
    }
    forall i | 0 <= i < |m.rcpt|
      ensures !Named(values, m.rcpt[i])
         <==> forall h :: h in m.headers && EqualFold(h.key, name) ==> !EqualFold(h.value, Text(m.rcpt[i]))
    {
      forall h | h in m.headers && EqualFold(h.key, name) ensures h.value in values {
      }
      if k :| 0 <= k < |values| && EqualFold(values[k], Text(m.rcpt[i])) {
        assert values[k] in values;
      }
    }
  }

  lemma {:induction false} ValuesGrow(headers: seq<Header>, name: string, k: nat, i: nat)
    requires k <= |headers| && i < |RecipientValues(headers[..k], name)|
    ensures i < |RecipientValues(headers, name)|
    ensures RecipientValues(headers, name)[i] == RecipientValues(headers[..k], name)[i]
    decreases |headers|
  {
    if k == |headers| {
      assert headers[..k] == headers;
    } else {
      var init := headers[..|headers| - 1];
      assert init[..k] == headers[..k];
      ValuesGrow(init, name, k, i);
    }
  }

  /** The inner loop, which stops at a match. */
  method FindRecipient(headers: seq<Header>, name: string, r: Mailbox) returns (found: bool, count: nat)
    ensures found <==> Named(RecipientValues(headers, name), r)
    ensures count == 0 <==> RecipientValues(headers, name) == []
  {
    found, count := false, 0;
    var j := 0;
    while j < |headers|
      invariant j <= |headers| && count == |RecipientValues(headers[..j], name)|
      invariant !Named(RecipientValues(headers[..j], name), r)
    {
      var hdr := headers[j];
      assert headers[..j + 1][..j] == headers[..j];
      ghost var values := RecipientValues(headers[..j], name);
      if EqualFold(hdr.key, name) {
        count := count + 1;
        if EqualFold(hdr.value, Text(r)) {
          found := true;
          assert (values + [hdr.value])[|values|] == hdr.value;
          ValuesGrow(headers, name, j + 1, |values|);
          return;
        }
      }
      j := j + 1;
    }
    assert headers[..j] == headers;
  }

  method IsForwarded(m: Message, name: string) returns (forwarded: bool)
    ensures forwarded <==> Forwarded(m, name)
  {
    ghost var values := RecipientValues(m.headers, name);
    for i := 0 to |m.rcpt|
      invariant forall k :: 0 <= k < i ==> values != [] && Named(values, m.rcpt[k])
    {
      var match_, count := FindRecipient(m.headers, name, m.rcpt[i]);
      if count == 0 {
        return false;
      }
      if !match_ {
        return true;
      }
    }
    return false;
  }

  // ----- The rewrite domain -----

  function DomainOf(value: string): string {
    FromString(Lower(value), '@').domain
  }

  function Domains(values: seq<string>): (r: seq<string>)
    ensures |r| == |values| && forall i :: 0 <= i < |r| ==> r[i] == FromString(Lower(values[i]), '@').domain
  {
    seq(|values|, i requires 0 <= i < |values| => DomainOf(values[i]))
  }

  ghost predicate Distinct(s: seq<string>) {
    forall i, j :: 0 <= i < j < |s| ==> s[i] != s[j]
  }

  /** What is left, in order, without some domains. */
  function Left(s: seq<string>, gone: seq<string>): seq<string> {
    if s == [] then []
    else
      var init, last := Left(s[..|s| - 1], gone), s[|s| - 1];
      if last in gone then init else init + [last]
  }

  lemma {:induction false} LeftHas(s: seq<string>, gone: seq<string>, d: string)
    ensures d in Left(s, gone) <==> d in s && d !in gone
    decreases |s|
  {
    if s != [] {
      LeftHas(s[..|s| - 1], gone, d);
      assert s == s[..|s| - 1] + [s[|s| - 1]];
    }
  }

  lemma {:induction false} LeftDistinct(s: seq<string>, gone: seq<string>)
    requires Distinct(s)
    ensures Distinct(Left(s, gone))
    decreases |s|
  {
    if s != [] {
      LeftDistinct(s[..|s| - 1], gone);
      LeftHas(s[..|s| - 1], gone, s[|s| - 1]);
    }
  }

  lemma {:induction false} LeftMore(s: seq<string>, x: string, gone: seq<string>)
    ensures Left(Left(s, [x]), gone) == Left(s, [x] + gone)
    decreases |s|
  {
    if s != [] {
      var init, last := s[..|s| - 1], s[|s| - 1];
      LeftMore(init, x, gone);
      if last != x {
        var l := Left(init, [x]) + [last];
        assert l[..|l| - 1] == Left(init, [x]);
      }
    }
  }

  lemma {:induction false} LeftFront(d: string, s: seq<string>, gone: seq<string>)
    ensures Left([d] + s, gone) == (if d in gone then [] else [d]) + Left(s, gone)
    decreases |s|
  {
    var t := [d] + s;
    if s == [] {
      assert t[..0] == [];
    } else {
      assert t[..|t| - 1] == [d] + s[..|s| - 1];
      LeftFront(d, s[..|s| - 1], gone);
    }
  }

  lemma {:induction false} LeftNone(s: seq<string>, x: string)
    requires x !in s
    ensures Left(s, [x]) == s
    decreases |s|
  {
    if s != [] {
      LeftNone(s[..|s| - 1], x);
    }
  }

  // ----- One recipient's pass over the domains -----

  /** The loop reads the slice as it was while it splices it: after a removal it
      skips one domain. */
  function Sieve(s: seq<string>, x: string): seq<string>
    decreases |s|
  {
    if s == [] then []
    else if s[0] != x then [s[0]] + Sieve(s[1..], x)
    else if |s| == 1 then []
    else [s[1]] + Sieve(s[2..], x)
  }

  /** What is over is read past the shortened slice, whose bound is checked then. */
  predicate Overruns(s: seq<string>, x: string) {
    s != [] && s[|s| - 1] == x && x in s[..|s| - 1]
  }

  datatype Outcome<T> = Panics | Done(value: T)

  /** The passes for some recipient domains, one after the other. */
  function Passes(s: seq<string>, gone: seq<string>): Outcome<seq<string>>
    decreases |gone|
  {
    if gone == [] then Done(s)
    else if Overruns(s, gone[0]) then Panics
    else Passes(Sieve(s, gone[0]), gone[1..])
  }

  function RewriteDomain(s: seq<string>, gone: seq<string>): Outcome<string> {
    var r := Passes(s, gone);
    if r.Panics? then Panics else Done(if r.value == [] then "" else r.value[0])
  }

  /** No two occurrences of a domain are next to each other. */
  ghost predicate Apart(s: seq<string>, x: string) {
    forall i :: 0 <= i < |s| - 1 ==> !(s[i] == x == s[i + 1])
  }

  /** Where the first n domains pair with none of that name, the others decide. */
  lemma ApartFrom(s: seq<string>, x: string, n: nat)
    requires n <= |s| && forall i :: 0 <= i < n && i < |s| - 1 ==> !(s[i] == x == s[i + 1])
    ensures Apart(s, x) <==> Apart(s[n..], x)
  {
    if Apart(s, x) {
      forall i | 0 <= i < |s[n..]| - 1 ensures !(s[n..][i] == x == s[n..][i + 1]) {
        assert s[n..][i] == s[n + i] && s[n..][i + 1] == s[n + i + 1];
      }
    } else {
      var i :| 0 <= i < |s| - 1 && s[i] == x == s[i + 1];
      assert i >= n && s[n..][i - n] == s[i] && s[n..][i - n + 1] == s[i + 1];
    }
  }

  lemma Cancel(p: seq<string>, a: seq<string>, b: seq<string>)
    ensures p + a == p + b <==> a == b
  {
    if p + a == p + b {
      assert a == (p + a)[|p|..] && b == (p + b)[|p|..];
    }
  }

  /** A pass removes a domain, and no other, if and only if no two of its occurrences
      are next to each other. */
  lemma {:induction false} SieveIff(s: seq<string>, x: string)
    ensures Sieve(s, x) == Left(s, [x]) <==> Apart(s, x)
    decreases |s|
  {
    if s != [] {
      assert s == [s[0]] + s[1..];
      LeftFront(s[0], s[1..], [x]);
      if s[0] != x {
        ApartFrom(s, x, 1);
        hide Apart, Left;
        SieveIff(s[1..], x);
        Cancel([s[0]], Sieve(s[1..], x), Left(s[1..], [x]));
      } else if |s| > 1 {
        assert s[1..] == [s[1]] + s[2..];
        LeftFront(s[1], s[2..], [x]);
        if s[1] == x {
          hide Left;
          assert !Apart(s, x) by {
            assert s[0] == x == s[0 + 1];
          }
          LeftHas(s, [x], x);
          assert x in Sieve(s, x);
        } else {
          ApartFrom(s, x, 2);
          hide Apart, Left;
          SieveIff(s[2..], x);
          Cancel([s[1]], Sieve(s[2..], x), Left(s[2..], [x]));
        }
      }
    }
  }

  lemma {:induction false} NoneGone(s: seq<string>)
    ensures Left(s, []) == s
    decreases |s|
  {
    if s != [] {
      NoneGone(s[..|s| - 1]);
    }
  }

  /** Without repetition, the passes leave exactly the domains that are no recipient's. */
  lemma {:induction false} DistinctPasses(s: seq<string>, gone: seq<string>)
    requires Distinct(s)
    ensures Passes(s, gone) == Done(Left(s, gone))
    decreases |gone|
  {
    if gone == [] {
      NoneGone(s);
    } else {
      var x := gone[0];
      SieveIff(s, x);
      assert Apart(s, x) && !Overruns(s, x);
      hide Left, Sieve, Distinct, Apart, Overruns;
      LeftDistinct(s, [x]);
      DistinctPasses(Left(s, [x]), gone[1..]);
      LeftMore(s, x, gone[1..]);
      assert [x] + gone[1..] == gone;
    }
  }

  lemma {:induction false} SieveKeeps(s: seq<string>, x: string, d: string)
    ensures d != x ==> multiset(Sieve(s, x))[d] == multiset(s)[d]
    ensures |Sieve(s, x)| <= |s| && (x in s ==> |Sieve(s, x)| < |s|)
    decreases |s|
  {
    if s != [] {
      assert s == [s[0]] + s[1..];
      if s[0] != x {
        SieveKeeps(s[1..], x, d);
      } else if |s| > 1 {
        assert s == [s[0], s[1]] + s[2..];
        SieveKeeps(s[2..], x, d);
      }
    }
  }

  /** A repeated domain makes some list of recipients overrun: those of the other
      domains from the last on, until a repeated one is the last. */
  lemma {:induction false} RepeatedPanics(s: seq<string>, d: string) returns (gone: seq<string>)
    requires multiset(s)[d] >= 2
    ensures Passes(s, gone) == Panics
    decreases |s|
  {
    var last := s[|s| - 1];
    assert s == s[..|s| - 1] + [last];
    if Overruns(s, last) {
      gone := [last];
    } else {
      assert d != last;
      SieveKeeps(s, last, d);
      var more := RepeatedPanics(Sieve(s, last), d);
      gone := [last] + more;
      assert gone[1..] == more;
    }
  }

  /** The slice holds what was kept before k, and what is to be read from k on. */
  ghost predicate Reads(s: seq<string>, left: seq<string>, k: nat, x: string) {
    && k <= |left| <= |s|
    && left[k..] == s[k + |s| - |left|..]
    && Sieve(s, x) == left[..k] + Sieve(left[k..], x)
  }

  lemma ReadsAt(s: seq<string>, left: seq<string>, k: nat, x: string)
    requires Reads(s, left, k, x) && k < |left|
    ensures left[k] == s[k + |s| - |left|] && left[|left| - 1] == s[|s| - 1]
  {
    assert left[k..][0] == left[k] && left[k..][|left| - 1 - k] == left[|left| - 1];
  }

  lemma ReadsEnd(s: seq<string>, left: seq<string>, x: string)
    requires Reads(s, left, |left|, x)
    ensures left == Sieve(s, x)
  {
    assert left[..|left|] == left && left[|left|..] == [];
  }

  lemma ReadsOn(s: seq<string>, left: seq<string>, k: nat, x: string)
    requires Reads(s, left, k, x) && k < |left| && left[k] != x
    ensures Reads(s, left, k + 1, x)
  {
    assert left[k..][1..] == left[k + 1..] && left[..k + 1] == left[..k] + [left[k]];
    assert s[k + |s| - |left|..][1..] == s[k + 1 + |s| - |left|..];
  }

  lemma ReadsMore(s: seq<string>, was: seq<string>, left: seq<string>, k: nat, x: string)
    requires Reads(s, was, k, x) && k < |was| && was[k] == x && left == was[..k] + was[k + 1..]
    ensures if k < |left| then Reads(s, left, k + 1, x) else left == Sieve(s, x)
  {
    if k < |left| {
      assert was[k..][2..] == left[k + 1..] && left[..k + 1] == was[..k] + [was[k..][1]];
      assert s[k + |s| - |was|..][2..] == s[k + 1 + |s| - |left|..];
    }
  }

  /** A pass stands at index k, with m domains left of those it began with: what is
      over repeats the last of them. */
  ghost predicate Passing(s: seq<string>, b: seq<string>, m: nat, k: nat, x: string) {
    && m <= |s| == |b| && k <= |s| && (s != [] ==> b[|s| - 1] == s[|s| - 1])
    && (m == |s| ==> x !in s[..k])
    && (forall i :: m <= i < |s| ==> b[i] == s[|s| - 1])
    && (m < |s| && k < |s| ==> x in s[..|s| - 1])
    && (k == |s| ==> !Overruns(s, x))
    && if k <= m then Reads(s, b[..m], k, x) else b[..m] == Sieve(s, x)
  }

  lemma PassBegins(s: seq<string>, x: string)
    ensures Passing(s, s, |s|, 0, x)
  {
    hide Sieve;
    assert s[..|s|] == s && s[..0] == [];
  }

  lemma PassSkips(s: seq<string>, b: seq<string>, m: nat, k: nat, x: string)
    requires Passing(s, b, m, k, x) && k < |s| && b[k] != x
    ensures Passing(s, b, m, k + 1, x)
  {
    hide Reads, Sieve;
    if k < m {
      ReadsAt(s, b[..m], k, x);
      ReadsOn(s, b[..m], k, x);
    } else if k == m {
      ReadsEnd(s, b[..m], x);
    }
    assert m == |s| ==> s[..k + 1] == s[..k] + [s[k]];
  }

  lemma PassPanics(s: seq<string>, b: seq<string>, m: nat, k: nat, x: string)
    requires Passing(s, b, m, k, x) && k < |s| && b[k] == x && m <= k
    ensures Overruns(s, x)
  {
  }

  lemma PassEnds(s: seq<string>, b: seq<string>, m: nat, x: string)
    requires Passing(s, b, m, |s|, x)
    ensures !Overruns(s, x) && b[..m] == Sieve(s, x)
  {
    if m == |s| {
      ReadsEnd(s, b[..m], x);
    }
  }

  lemma PassRemoves(s: seq<string>, b: seq<string>, c: seq<string>, m: nat, k: nat, x: string)
    requires Passing(s, b, m, k, x) && k < m && b[k] == x && |c| == |b|
    requires c[..m - 1] == b[..k] + b[k + 1..m] && forall i :: m - 1 <= i < |b| ==> c[i] == b[i]
    ensures Passing(s, c, m - 1, k + 1, x)
  {
    hide Reads, Sieve;
    var was := b[..m];
    ReadsAt(s, was, k, x);
    assert was[..k] + was[k + 1..] == c[..m - 1];
    ReadsMore(s, was, c[..m - 1], k, x);
    assert k < m - 1 ==> s[..|s| - 1][k + |s| - m] == x;
  }

  /** The splice: what follows the k-th of the first n elements moves down by one,
      and the array keeps its last element. */
  method Splice(a: array<string>, n: nat, k: nat)
    requires k < n <= a.Length
    modifies a
    ensures a[..n - 1] == old(a[..k]) + old(a[k + 1..n])
    ensures forall i :: n - 1 <= i < a.Length ==> a[i] == old(a[i])
  {
    ghost var s := a[..];
    for i := k to n - 1
      invariant a[..k] == s[..k] && a[k..i] == s[k + 1..i + 1] && a[i..] == s[i..]
    {
      assert a[i + 1] == a[i..][1] && s[i + 1] == s[i..][1];
      a[i] := a[i + 1];
      assert a[k..i + 1] == a[k..i] + [a[i]];
    }
    assert a[..n - 1] == a[..k] + a[k..n - 1];
  }

  /** One recipient's loop over the array as it was when the loop began: the array
      is spliced in place while it is being read, and the bound of a splice is that
      of what is left of it. */
  method RemoveDomain(a: array<string>, n: nat, x: string) returns (r: Outcome<nat>)
    requires n <= a.Length
    modifies a
    ensures r.Panics? <==> Overruns(old(a[..n]), x)
    ensures r.Done? ==> r.value <= n && a[..r.value] == Sieve(old(a[..n]), x)
  {
    hide Passing, Overruns;
    ghost var s := a[..n];
    PassBegins(s, x);
    var m: nat := n;
    for k := 0 to n
      invariant m <= n && Passing(s, a[..n], m, k, x)
    {
      ghost var b := a[..n];
      if a[k] != x {
        PassSkips(s, b, m, k, x);
      } else if k + 1 > m {
        PassPanics(s, b, m, k, x);
        return Panics;
      } else {
        assert a[..k] == b[..k] && a[k + 1..m] == b[k + 1..m];
        Splice(a, m, k);
        assert a[..n][..m - 1] == a[..m - 1];
        PassRemoves(s, b, a[..n], m, k, x);
        m := m - 1;
      }
    }
    PassEnds(s, a[..n], m, x);
    return Done(m);
  }

  function LowerDomains(rcpt: seq<Mailbox>): (r: seq<string>)
    ensures |r| == |rcpt| && forall i :: 0 <= i < |r| ==> r[i] == Lower(rcpt[i].domain)
  {
    seq(|rcpt|, i requires 0 <= i < |rcpt| => Lower(rcpt[i].domain))
  }

  /** The first of the domains named by the headers that is no recipient's, and the
      empty string without one. */
  ghost predicate RewritesVia(domains: seq<string>, others: seq<string>, domain: string) {
    if forall d :: d in domains ==> d in others then domain == ""
    else exists i :: 0 <= i < |domains| && domain == domains[i] && domain !in others
           && forall j :: 0 <= j < i ==> domains[j] in others
  }

  lemma FirstStays(s: seq<string>, last: string, gone: seq<string>, d: string)
    requires d in s && d !in gone && RewritesVia(s, gone, d)
    ensures RewritesVia(s + [last], gone, d)
  {
    var i :| 0 <= i < |s| && d == s[i] && forall j :: 0 <= j < i ==> s[j] in gone;
    assert (s + [last])[i] == d && d in s + [last];
  }

  /** What is left starts with the first domain that is not gone. */
  lemma {:induction false} FirstOfLeft(s: seq<string>, gone: seq<string>)
    ensures var left := Left(s, gone);
            RewritesVia(s, gone, if left == [] then "" else left[0])
    decreases |s|
  {
    if s != [] {
      var init, last := s[..|s| - 1], s[|s| - 1];
      FirstOfLeft(init, gone);
      var left := Left(init, gone);
      assert s == init + [last];
      if left == [] {
        forall d | d in init ensures d in gone {
          LeftHas(init, gone, d);
        }
        assert s[|init|] == last;
      } else {
        LeftHas(init, gone, left[0]);
        FirstStays(init, last, gone, left[0]);
      }
    }
  }

  lemma DistinctRewrites(s: seq<string>, gone: seq<string>)
    requires Distinct(s)
    ensures RewriteDomain(s, gone).Done? && RewritesVia(s, gone, RewriteDomain(s, gone).value)
  {
    hide RewritesVia, Left, Passes;
    DistinctPasses(s, gone);
    FirstOfLeft(s, gone);
  }

  /** It is what the passes find for every list of recipients, and they never panic,
      if and only if the headers name no domain twice. */
  lemma RewriteIff(s: seq<string>)
    ensures (forall gone :: RewriteDomain(s, gone).Done?) <==> Distinct(s)
    ensures (forall gone :: RewriteDomain(s, gone).Done? && RewritesVia(s, gone, RewriteDomain(s, gone).value))
       <==> Distinct(s)
  {
    hide RewritesVia, Passes;
    if Distinct(s) {
      forall gone ensures RewriteDomain(s, gone).Done? && RewritesVia(s, gone, RewriteDomain(s, gone).value) {
        DistinctRewrites(s, gone);
      }
    } else {
      var i, j :| 0 <= i < j < |s| && s[i] == s[j];
      assert s == s[..j] + s[j..] && s[..j][i] == s[i] && s[j..][0] == s[j];
      var gone := RepeatedPanics(s, s[i]);
      assert RewriteDomain(s, gone).Panics?;
    }
  }

  /** There is only one such domain. */
  lemma RewritesOne(s: seq<string>, gone: seq<string>, d: string, e: string)
    requires RewritesVia(s, gone, d) && RewritesVia(s, gone, e)
    ensures d == e
  {
    if exists x :: x in s && x !in gone {
      var i :| 0 <= i < |s| && d == s[i] && d !in gone && forall j :: 0 <= j < i ==> s[j] in gone;
      var k :| 0 <= k < |s| && e == s[k] && e !in gone && forall j :: 0 <= j < k ==> s[j] in gone;
    }
  }

  // ----- In terms of the message -----

  ghost predicate NamesRecipient(m: Message, name: string, h: nat) {
    h < |m.headers| && EqualFold(m.headers[h].key, name)
  }

  /** The domain of a header, in small letters. */
  function HeaderDomain(m: Message, h: nat): string
    requires h < |m.headers|
  {
    FromString(Lower(m.headers[h].value), '@').domain
  }

  ghost predicate IsRecipients(m: Message, domain: string) {
    exists r :: 0 <= r < |m.rcpt| && Lower(m.rcpt[r].domain) == domain
  }

  /** The domain is that of the first of the headers that name recipients whose domain
      is no recipient's, and empty when there is none. */
  ghost predicate RewritesViaHeader(m: Message, name: string, domain: string) {
    (domain == "" && forall h: nat :: NamesRecipient(m, name, h) ==> IsRecipients(m, HeaderDomain(m, h)))
    || exists h: nat ::
         && NamesRecipient(m, name, h) && domain == HeaderDomain(m, h) && !IsRecipients(m, domain)
         && forall g: nat :: g < h && NamesRecipient(m, name, g) ==> IsRecipients(m, HeaderDomain(m, g))
  }

  /** No two of the headers that name recipients name the same domain. */
  ghost predicate DomainsDiffer(m: Message, name: string) {
    forall g: nat, h: nat :: g < h && NamesRecipient(m, name, g) && NamesRecipient(m, name, h) ==>
      HeaderDomain(m, g) != HeaderDomain(m, h)
  }

  /** The values are those of the headers with the name, in the order of the message. */
  lemma {:induction false} ValuesInOrder(headers: seq<Header>, name: string) returns (places: seq<nat>)
    ensures |places| == |RecipientValues(headers, name)|
    ensures forall k :: 0 <= k < |places| ==>
              places[k] < |headers| && RecipientValues(headers, name)[k] == headers[places[k]].value
    ensures forall j, k :: 0 <= j < k < |places| ==> places[j] < places[k]
    ensures forall h: nat :: h in places <==> h < |headers| && EqualFold(headers[h].key, name)
    decreases |headers|
  {
    hide EqualFold;
    if headers == [] {
      places := [];
    } else {
      var n := |headers| - 1;
      places := ValuesInOrder(headers[..n], name);
      if EqualFold(headers[n].key, name) {
        places := places + [n];
      }
    }
  }

  lemma RecipientsIff(m: Message, domain: string)
    ensures domain in LowerDomains(m.rcpt) <==> IsRecipients(m, domain)
  {
    hide Lower;
    var s := LowerDomains(m.rcpt);
    if domain in s {
      var r :| 0 <= r < |s| && s[r] == domain;
      assert Lower(m.rcpt[r].domain) == domain;
    }
    if r :| 0 <= r < |m.rcpt| && Lower(m.rcpt[r].domain) == domain {
      assert s[r] == domain;
    }
  }

  /** The domains are those of the headers at these places. */
  ghost predicate DomainsAt(m: Message, name: string, places: seq<nat>, s: seq<string>) {
    && |places| == |s|
    && (forall j, k :: 0 <= j < k < |places| ==> places[j] < places[k])
    && (forall k :: 0 <= k < |s| ==> NamesRecipient(m, name, places[k]) && s[k] == HeaderDomain(m, places[k]))
    && forall h: nat :: NamesRecipient(m, name, h) ==> h in places
  }

  lemma PlaceAmong(m: Message, name: string, places: seq<nat>, s: seq<string>, h: nat) returns (k: nat)
    requires DomainsAt(m, name, places, s) && NamesRecipient(m, name, h)
    ensures k < |s| == |places| && places[k] == h && s[k] == HeaderDomain(m, h)
  {
    hide HeaderDomain, EqualFold;
    k :| k < |places| && places[k] == h;
  }

  lemma DistinctIff(m: Message, name: string, places: seq<nat>, s: seq<string>)
    requires DomainsAt(m, name, places, s)
    ensures Distinct(s) <==> DomainsDiffer(m, name)
  {
    hide HeaderDomain, EqualFold;
    if Distinct(s) {
      forall g: nat, h: nat | g < h && NamesRecipient(m, name, g) && NamesRecipient(m, name, h)
        ensures HeaderDomain(m, g) != HeaderDomain(m, h)
      {
        var j := PlaceAmong(m, name, places, s, g);
        var k := PlaceAmong(m, name, places, s, h);
        assert j < k || k < j;
      }
    }
  }

  lemma ViaToHeader(m: Message, name: string, places: seq<nat>, s: seq<string>, gone: seq<string>, domain: string)
    requires DomainsAt(m, name, places, s) && (forall d :: d in gone <==> IsRecipients(m, d))
    requires RewritesVia(s, gone, domain)
    ensures RewritesViaHeader(m, name, domain)
  {
    hide HeaderDomain, EqualFold, IsRecipients;
    if forall d :: d in s ==> d in gone {
      forall h: nat | NamesRecipient(m, name, h) ensures IsRecipients(m, HeaderDomain(m, h)) {
        var k := PlaceAmong(m, name, places, s, h);
      }
    } else {
      var i :| 0 <= i < |s| && domain == s[i] && domain !in gone && forall j :: 0 <= j < i ==> s[j] in gone;
      forall g: nat | g < places[i] && NamesRecipient(m, name, g) ensures IsRecipients(m, HeaderDomain(m, g)) {
        var k := PlaceAmong(m, name, places, s, g);
      }
    }
  }

  lemma HeaderToVia(m: Message, name: string, places: seq<nat>, s: seq<string>, gone: seq<string>, domain: string)
    requires DomainsAt(m, name, places, s) && (forall d :: d in gone <==> IsRecipients(m, d))
    requires RewritesViaHeader(m, name, domain)
    ensures RewritesVia(s, gone, domain)
  {
    hide HeaderDomain, EqualFold, IsRecipients;
    if h: nat :| NamesRecipient(m, name, h) && domain == HeaderDomain(m, h) && !IsRecipients(m, domain)
                 && forall g: nat :: g < h && NamesRecipient(m, name, g) ==> IsRecipients(m, HeaderDomain(m, g)) {
      var i := PlaceAmong(m, name, places, s, h);
      assert domain in s;
      forall j | 0 <= j < i ensures s[j] in gone {
        assert NamesRecipient(m, name, places[j]);
      }
    }
  }

  /** The pass over lists is that over the message. */
  lemma ViaHeaderIff(m: Message, name: string, domain: string)
    ensures RewritesVia(Domains(RecipientValues(m.headers, name)), LowerDomains(m.rcpt), domain)
       <==> RewritesViaHeader(m, name, domain)
    ensures Distinct(Domains(RecipientValues(m.headers, name))) <==> DomainsDiffer(m, name)
  {
    var places := ValuesInOrder(m.headers, name);
    var s, gone := Domains(RecipientValues(m.headers, name)), LowerDomains(m.rcpt);
    forall d ensures d in gone <==> IsRecipients(m, d) {
      RecipientsIff(m, d);
    }
    hide Lower, EqualFold, FromString, IsRecipients;
    forall k | 0 <= k < |s| ensures NamesRecipient(m, name, places[k]) && s[k] == HeaderDomain(m, places[k]) {
      assert places[k] in places;
    }
    assert DomainsAt(m, name, places, s);
    hide *;
    DistinctIff(m, name, places, s);
    if RewritesVia(s, gone, domain) {
      ViaToHeader(m, name, places, s, gone, domain);
    }
    if RewritesViaHeader(m, name, domain) {
      HeaderToVia(m, name, places, s, gone, domain);
    }
  }

  /** The loop over the recipients, which removes the domain of each in place. */
  method FirstLeft(domains: seq<string>, rcpt: seq<Mailbox>) returns (domain: Outcome<string>)
    ensures domain == RewriteDomain(domains, LowerDomains(rcpt))
  {
    hide Sieve, Overruns;
    var a := new string[|domains|](i requires 0 <= i < |domains| => domains[i]);
    var n := |domains|;
    assert a[..n] == domains;
    ghost var gone := LowerDomains(rcpt);
    for i := 0 to |rcpt|
      invariant 0 <= n <= a.Length
      invariant Passes(domains, gone) == Passes(a[..n], gone[i..])
    {
      assert gone[i..][1..] == gone[i + 1..];
      var r := RemoveDomain(a, n, Lower(rcpt[i].domain));
      if r.Panics? {
        return Panics;
      }
      n := r.value;
    }
    assert gone[|rcpt|..] == [];
    return Done(if n > 0 then a[0] else "");
  }

  /** getRewriteDomain, where removing a domain that is named twice may panic. */
  method GetRewriteDomain(m: Message, name: string) returns (domain: Outcome<string>)
    ensures domain == RewriteDomain(Domains(RecipientValues(m.headers, name)), LowerDomains(m.rcpt))
    ensures Distinct(Domains(RecipientValues(m.headers, name))) ==>
              domain.Done?
              && RewritesVia(Domains(RecipientValues(m.headers, name)), LowerDomains(m.rcpt), domain.value)
    ensures DomainsDiffer(m, name) ==> domain.Done? && RewritesViaHeader(m, name, domain.value)
  {
    var domains := [];
    for j := 0 to |m.headers|
      invariant domains == Domains(RecipientValues(m.headers[..j], name))
    {
      assert m.headers[..j + 1][..j] == m.headers[..j];
      var hdr := m.headers[j];
      if EqualFold(hdr.key, name) {
        domains := domains + [FromString(Lower(hdr.value), '@').domain];
      }
    }
    assert m.headers[..|m.headers|] == m.headers;
    domain := FirstLeft(domains, m.rcpt);
    if Distinct(domains) {
      DistinctRewrites(domains, LowerDomains(m.rcpt));
    }
    hide RewritesViaHeader, RewritesVia;
    if domain.Done? {
      ViaHeaderIff(m, name, domain.value);
    } else {
      ViaHeaderIff(m, name, "");
    }
  }
}
