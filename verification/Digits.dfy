/** The primitive forms digit by digit: what bytes a varint and a fixed-width value
    are, what a varint of any length gathers, and how long each wire type is
    (cluegetter.pb.go, lines 736-762, 1027-1040, 2779-2877; Protocol Buffers
    Encoding, sections "Base 128 Varints" and "Message Structure"). */
module Digits {
  import opened Wire

  // ----- What is written -----

  /** The sevens of bits of all bytes, the first lowest. */
  function Gathered(s: Bytes): nat {
    if s == [] then 0 else s[0] % 128 + 128 * Gathered(s[1..])
  }

  /** A value is written as the one varint without needless bytes that gathers it. */
  lemma {:induction false} VarintIs(v: nat)
    ensures var s := EncVarint(v);
            && Gathered(s) == v
            && (forall i :: 0 <= i < |s| ==> (s[i] >= 128 <==> i < |s| - 1))
            && (|s| > 1 ==> s[|s| - 1] != 0)
    decreases v
  {
    if v >= 128 {
      VarintIs(v / 128);
      var s, t := EncVarint(v), EncVarint(v / 128);
      assert s[1..] == t && s[0] % 128 == v % 128;
      assert forall i :: 1 <= i < |s| ==> s[i] == t[i - 1];
      hide EncVarint;
    }
  }

  /** The number that bytes make, the first lowest. */
  function LowFirst(s: Bytes): nat {
    if s == [] then 0 else s[0] + 256 * LowFirst(s[1..])
  }

  lemma {:induction false} LowFirstIs(s: Bytes)
    ensures FromLittleEndian(s) == LowFirst(s)
    decreases |s|
  {
    if s != [] {
      LowFirstIs(s[1..]);
    }
  }

  /** A double's pattern is written as the eight bytes that make it, and is read so. */
  lemma FixedIs(v: uint64, s: Bytes, rest: Bytes)
    requires |s| == 8
    ensures |LittleEndian(v, 8)| == 8 && LowFirst(LittleEndian(v, 8)) == v
    ensures LowFirst(s) < TWO_64 && ReadFixed64(s + rest) == Ok((LowFirst(s), 8))
  {
    Pow256Of8();
    LittleEndianRoundTrip(v, 8);
    LowFirstIs(LittleEndian(v, 8));
    LowFirstIs(s);
    assert (s + rest)[..8] == s;
  }

  // ----- Varints of any length -----

  lemma SameRemainder(a: nat, x: nat, y: nat)
    ensures (a + x % TWO_64 + y) % TWO_64 == (a + (x + y)) % TWO_64
  {
    assert x == TWO_64 * (x / TWO_64) + x % TWO_64;
    assert a + (x + y) == TWO_64 * (x / TWO_64) + (a + x % TWO_64 + y);
  }

  lemma Distribute(x: nat, g: nat, p: nat)
    ensures (x + 128 * g) * p == x * p + g * (128 * p)
  {
  }

  lemma NextSum(b: byte, k: nat, acc: nat, g: nat)
    requires k < 10
    ensures (acc + Shifted(b, k) + g * Pow128(k + 1)) % TWO_64 == (acc + (b % 128 + 128 * g) * Pow128(k)) % TWO_64
  {
    ShiftedTruncates(b, k);
    var p, x := Pow128(k), b % 128;
    assert Pow128(k + 1) == 128 * p;
    Distribute(x, g, p);
    SameRemainder(acc, x * p, g * (128 * p));
    hide *;
  }

  lemma NoMore(a: nat, p: nat, g: nat)
    requires g == 0
    ensures a + g * p == a
  {
  }

  lemma ReadStep(s: Bytes, rest: Bytes, k: nat, acc: nat)
    requires s != [] && k < 10 && acc < Pow128(k) && acc + Shifted(s[0], k) < TWO_64
    requires acc + Shifted(s[0], k) < Pow128(k + 1) && acc < TWO_64
    ensures var next := acc + Shifted(s[0], k);
            ReadFrom(s + rest, k, acc)
            == if s[0] < 128 then Ok((next, 1))
               else var r := ReadFrom(s[1..] + rest, k + 1, next);
                    if r.Ok? then Ok((r.value.0, r.value.1 + 1)) else Err(r.error)
  {
    hide Pow128, Shifted;
    assert (s + rest)[0] == s[0] && (s + rest)[1..] == s[1..] + rest;
  }

  lemma {:induction false} GathersFrom(s: Bytes, rest: Bytes, k: nat, acc: nat)
    requires IsVarint(s) && |s| + k <= 10 && acc < Pow128(k) && acc < TWO_64
    ensures ReadFrom(s + rest, k, acc) == Ok(((acc + Gathered(s) * Pow128(k)) % TWO_64, |s|))
    decreases |s|
  {
    var g := Gathered(s[1..]);
    assert Gathered(s) == s[0] % 128 + 128 * g && (|s| == 1 ==> g == 0);
    ShiftedBound(s[0], k, acc);
    ReadStep(s, rest, k, acc);
    assert |s| > 1 ==> IsVarint(s[1..]) && s[0] >= 128;
    assert |s| == 1 ==> s[0] < 128;
    hide *;
    NextSum(s[0], k, acc, g);
    var next := acc + Shifted(s[0], k);
    if |s| == 1 {
      Small(next);
      NoMore(next, Pow128(k + 1), g);
    } else {
      GathersFrom(s[1..], rest, k + 1, next);
    }
  }

  /** A varint of up to ten bytes, canonical or not, is read as the number that its
      sevens of bits make, cut to 64 bits. */
  lemma VarintGathers(s: Bytes, rest: Bytes)
    requires IsVarint(s)
    ensures ReadVarint(s + rest) == Ok((Gathered(s) % 0x1_0000_0000_0000_0000, |s|))
  {
    GathersFrom(s, rest, 0, 0);
    assert Gathered(s) * Pow128(0) == Gathered(s);
  }

  lemma {:induction false} StopsFrom(d: Bytes, k: nat, acc: nat)
    requires k <= 10 && acc < Pow128(k) && acc < TWO_64 && ReadFrom(d, k, acc).Err?
    ensures if |d| + k >= 10 then ReadFrom(d, k, acc) == Err(IntOverflow)
            else ReadFrom(d, k, acc) == Err(UnexpectedEof)
    ensures forall i :: 0 <= i < |d| && i + k < 10 ==> d[i] >= 128
    decreases |d|
  {
    if k < 10 && d != [] {
      ShiftedBound(d[0], k, acc);
      hide Pow128, Shifted;
      StopsFrom(d[1..], k + 1, acc + Shifted(d[0], k));
      assert forall i :: 1 <= i < |d| ==> d[i] == d[1..][i - 1];
    }
  }

  /** Reading stops with an error exactly when no varint starts the bytes: at their
      end before ten bytes, and otherwise after ten. */
  lemma VarintStops(d: Bytes)
    ensures ReadVarint(d).Err? <==> forall i :: 0 <= i < |d| && i < 10 ==> d[i] >= 128
    ensures ReadVarint(d).Err? ==> ReadVarint(d).error == if |d| >= 10 then IntOverflow else UnexpectedEof
  {
    if ReadVarint(d).Err? {
      StopsFrom(d, 0, 0);
    } else {
      var n := ReadVarint(d).value.1;
      ReadVarintIff(d, n);
      assert d[..n][n - 1] == d[n - 1];
    }
  }

  // ----- Conversions -----

  /** The low 32 bits, read as a signed number, and a signed number as 64 bits. */
  lemma ConversionsAre(v: uint64, x: int32)
    ensures ToInt32(v) == if v % 0x1_0000_0000 < 0x8000_0000 then v % 0x1_0000_0000
                          else v % 0x1_0000_0000 - 0x1_0000_0000
    ensures FromInt32(x) == if x < 0 then x + 0x1_0000_0000_0000_0000 else x
  {
  }

  // ----- The lengths of the wire types -----

  lemma {:induction false} VarintSkips(s: Bytes, rest: Bytes, k: nat)
    requires IsVarint(s) && |s| + k <= 10
    ensures SkipVarint(s + rest, k) == Ok(|s|)
    decreases |s|
  {
    assert (s + rest)[0] == s[0];
    if |s| > 1 {
      assert (s + rest)[1..] == s[1..] + rest;
      VarintSkips(s[1..], rest, k + 1);
    }
  }

  lemma LowBits(x: nat)
    ensures x % TWO_64 % 8 == x % 8
  {
    assert x == TWO_64 * (x / TWO_64) + x % TWO_64;
  }

  lemma SkipsAfter(tag: Bytes, tail: Bytes)
    requires IsVarint(tag)
    ensures var r := SkipBody(Gathered(tag) % 8, tail);
            Skip(tag + tail) == if r.Ok? then Ok(|tag| + r.value) else Err(r.error)
  {
    VarintGathers(tag, tail);
    assert (tag + tail)[|tag|..] == tail;
    LowBits(Gathered(tag));
    hide ReadVarint, SkipBody, Gathered;
  }

  lemma DelimitedLength(payload: Bytes, rest: Bytes)
    requires IsVarint(payload) && Gathered(payload) < 0x8000_0000_0000_0000
    ensures SkipBody(2, payload + rest) == Ok(|payload| + Gathered(payload))
  {
    VarintGathers(payload, rest);
    Small(Gathered(payload));
    hide ReadVarint, Gathered, IsVarint;
  }

  /** After a tag come a varint, eight bytes, a length and as many bytes, or four
      bytes; wire types 6 and 7 are refused. */
  lemma SkipLengths(tag: Bytes, payload: Bytes, rest: Bytes)
    requires IsVarint(tag)
    ensures var w, r := Gathered(tag) % 8, Skip(tag + (payload + rest));
            && (w == 0 && IsVarint(payload) ==> r == Ok(|tag| + |payload|))
            && (w == 1 ==> r == Ok(|tag| + 8))
            && (w == 2 && IsVarint(payload) && Gathered(payload) < 0x8000_0000_0000_0000 ==>
                  r == Ok(|tag| + |payload| + Gathered(payload)))
            && (w == 4 ==> r == Ok(|tag|))
            && (w == 5 ==> r == Ok(|tag| + 4))
            && (w >= 6 ==> r == Err(IllegalWireType))
  {
    SkipsAfter(tag, payload + rest);
    var w := Gathered(tag) % 8;
    assert w == 1 ==> SkipBody(w, payload + rest) == Ok(8);
    assert w == 4 ==> SkipBody(w, payload + rest) == Ok(0);
    assert w == 5 ==> SkipBody(w, payload + rest) == Ok(4);
    assert w >= 6 ==> SkipBody(w, payload + rest) == Err(IllegalWireType);
    if IsVarint(payload) {
      VarintSkips(payload, rest, 0);
      assert w == 0 ==> SkipBody(w, payload + rest) == Ok(|payload|);
      hide *;
      if w == 2 && Gathered(payload) < 0x8000_0000_0000_0000 {
        DelimitedLength(payload, rest);
      }
    }
    hide *;
  }
}
