/** Mail addresses: splitting at the first `@`, and printing (address.go, lines 61-109).
    A string is a sequence of whatever its characters are; `at` is the separator. */
module Addresses {

  datatype Address<T> = Address(local: seq<T>, domain: seq<T>)

  /** The index of the first separator, or the length without one. */
  function IndexOf<T(==)>(s: seq<T>, at: T): (i: nat)
    ensures i <= |s| && at !in s[..i]
    ensures i < |s| ==> s[i] == at
    ensures at in s <==> i < |s|
  {
    if s == [] then 0
    else if s[0] == at then 0
    else
      var i := 1 + IndexOf(s[1..], at);
      assert s == [s[0]] + s[1..] && s[..i] == [s[0]] + s[1..][..i - 1];
      i
  }

  function FromString<T(==)>(s: seq<T>, at: T): Address<T> {
    var i := IndexOf(s, at);
    if i < |s| then Address(s[..i], s[i + 1..]) else Address(s, [])
  }

  function ToString<T>(a: Address<T>, at: T): seq<T> {
    if a.domain == [] then a.local else a.local + [at] + a.domain
  }

  lemma {:induction false} IndexIs<T>(s: seq<T>, at: T, k: nat)
    requires k < |s| && s[k] == at && at !in s[..k]
    ensures IndexOf(s, at) == k
    decreases k
  {
    if k > 0 {
      assert s[..k][0] == s[0];
      assert s[1..][..k - 1] == s[..k][1..];
      IndexIs(s[1..], at, k - 1);
    }
  }

  lemma {:induction false} IndexAtMost<T>(s: seq<T>, at: T, k: nat)
    requires k < |s| && s[k] == at
    ensures IndexOf(s, at) <= k
    decreases k
  {
    if k > 0 && s[0] != at {
      IndexAtMost(s[1..], at, k - 1);
    }
  }

  /** The first separator of a text that puts it after a part without one. */
  lemma SplitsAt<T>(before: seq<T>, at: T, rest: seq<T>)
    requires at !in before
    ensures FromString(before + [at] + rest, at) == Address(before, rest)
  {
    var s := before + [at] + rest;
    IndexIs(s, at, |before|);
    assert s[..|before|] == before && s[|before| + 1..] == rest;
  }

  /** Parsing a printed address gives it back exactly when its local part has no
      separator, as that of every parsed address does not. */
  lemma PrintThenParseIff<T>(a: Address<T>, at: T)
    ensures FromString(ToString(a, at), at) == a <==> at !in a.local
  {
    if at !in a.local {
      if a.domain != [] {
        SplitsAt(a.local, at, a.domain);
      }
    } else {
      var b := FromString(ToString(a, at), at);
      assert at !in b.local;
    }
  }

  lemma ParsedIsStable<T>(s: seq<T>, at: T)
    ensures FromString(ToString(FromString(s, at), at), at) == FromString(s, at)
  {
    PrintThenParseIff(FromString(s, at), at);
  }

  lemma Rejoin<T>(s: seq<T>, i: nat)
    requires i < |s|
    ensures s[..i] + [s[i]] + s[i + 1..] == s
  {
  }

  /** Printing a parsed text gives it back exactly when it does not end in its only
      separator. */
  lemma ParseThenPrintIff<T>(s: seq<T>, at: T)
    ensures ToString(FromString(s, at), at) == s <==> !(IndexOf(s, at) == |s| - 1)
  {
    var i := IndexOf(s, at);
    if i == |s| - 1 {
      assert ToString(FromString(s, at), at) == s[..i];
    } else if i < |s| {
      assert s[i + 1..] != [];
      Rejoin(s, i);
    }
  }
}
