/** Bytes, results and the primitive readers and writers of the wire format:
    base 128 varints, the 8-byte fixed form, field tags and the skipper of
    unknown fields (cluegetter.pb.go, lines 736-762, 1008-1017, 2779-2877). */
module Wire {

  type byte = b: int | 0 <= b < 256
  type Bytes = seq<byte>

  const TWO_31: int := 0x8000_0000
  const TWO_32: int := 0x1_0000_0000
  const TWO_63: int := 0x8000_0000_0000_0000
  const TWO_64: int := 0x1_0000_0000_0000_0000

  type uint32 = v: int | 0 <= v < TWO_32
  type uint64 = v: int | 0 <= v < TWO_64
  type int32 = v: int | -TWO_31 <= v < TWO_31

  datatype Option<+T> = None | Some(value: T)

  /** The reasons for which decoding stops. */
  datatype Error =
    | UnexpectedEof | IntOverflow | InvalidLength
    | EndGroup | IllegalTag | WrongWireType | IllegalWireType
    | Panicked

  datatype Result<+T> = Ok(value: T) | Err(error: Error) {
    predicate IsFailure() { Err? }

    function PropagateFailure<U>(): Result<U>
      requires Err?
    {
      Err(error)
    }

    function Extract(): T
      requires Ok?
    {
      value
    }
  }

  /** Conversion to a signed 32-bit integer keeps the low 32 bits. */
  function ToInt32(v: nat): (r: int32)
    ensures (r - v) % TWO_32 == 0
  {
    var low := v % TWO_32;
    if low < TWO_31 then low else low - TWO_32
  }

  /** Conversion of a signed 32-bit integer to uint64 extends its sign. */
  function FromInt32(v: int32): (r: uint64)
    ensures ToInt32(r) == v
    ensures r == 0 <==> v == 0
  {
    if v < 0 then v + TWO_64 else v
  }

  // ----- Base 128 varints -----

  /** 128 to the power k: what a shift by 7 * k bits multiplies by. */
  function Pow128(k: nat): (p: nat)
    ensures p >= 1
  {
    if k == 0 then 1 else 128 * Pow128(k - 1)
  }

  function EncVarint(v: nat): (s: Bytes)
    ensures 1 <= |s|
    decreases v
  {
    if v < 128 then [v] else [v % 128 + 128] + EncVarint(v / 128)
  }

  /** `(uint64(b) & 0x7F) << (7 * k)`: a shift by 63 keeps one of the seven bits. */
  function Shifted(b: byte, k: nat): (r: nat)
    requires k < 10
  {
    if k < 9 then (b % 128) * Pow128(k) else (b % 2) * Pow128(9)
  }

  lemma Pow128Values()
    ensures Pow128(9) == TWO_63 && Pow128(10) == 128 * TWO_63
  {
    assert Pow128(3) == 0x20_0000;
    assert Pow128(6) == 0x400_0000_0000;
  }

  lemma {:induction false} Pow128Mono(i: nat, j: nat)
    requires i <= j
    ensures Pow128(i) <= Pow128(j)
    decreases j
  {
    if i < j {
      Pow128Mono(i, j - 1);
    }
  }

  lemma MulMono(a: nat, b: nat, p: nat)
    ensures a <= b ==> a * p <= b * p
  {
  }

  lemma ShiftedBound(b: byte, k: nat, acc: nat)
    requires k < 10 && acc < Pow128(k)
    ensures acc + Shifted(b, k) < Pow128(k + 1) && acc + Shifted(b, k) < TWO_64
  {
    Pow128Values();
    if k < 9 {
      MulMono(b % 128, 127, Pow128(k));
      Pow128Mono(k + 1, 9);
      assert Pow128(k + 1) == 128 * Pow128(k);
      assert Shifted(b, k) <= 127 * Pow128(k);
      hide Pow128, Shifted;
    } else {
      MulMono(b % 2, 1, TWO_63);
      assert Shifted(b, 9) <= TWO_63;
      hide Pow128, Shifted;
    }
  }

  /** The varint loop at its k-th byte, with the value `acc` gathered so far:
      the value and the number of bytes taken from `d`. As `acc` has no bit at
      or above position 7 * k, or-ing the next seven bits in adds them. */
  function ReadFrom(d: Bytes, k: nat, acc: nat): (r: Result<(uint64, nat)>)
    requires k <= 10 && acc < Pow128(k) && acc < TWO_64
    ensures r.Ok? ==> 1 <= r.value.1 <= |d|
    decreases |d|
  {
    if k >= 10 then Err(IntOverflow)
    else if d == [] then Err(UnexpectedEof)
    else
      ShiftedBound(d[0], k, acc);
      var next: uint64 := acc + Shifted(d[0], k);
      if d[0] < 128 then Ok((next, 1))
      else
        var (v, n) :- ReadFrom(d[1..], k + 1, next);
        Ok((v, n + 1))
  }

  function ReadVarint(d: Bytes): (r: Result<(uint64, nat)>)
    ensures r.Ok? ==> 1 <= r.value.1 <= |d|
  {
    ReadFrom(d, 0, 0)
  }

  lemma ModMultiple(q: nat, r: nat)
    requires r < TWO_64
    ensures (q * TWO_64 + r) % TWO_64 == r
  {
  }

  lemma Small(x: nat)
    requires x < TWO_64
    ensures x % TWO_64 == x
  {
  }

  lemma TopBitIsLeft(x: nat)
    ensures x * TWO_63 % TWO_64 == (x % 2) * TWO_63
  {
    var q := x / 2;
    assert x * TWO_63 == q * TWO_64 + (x % 2) * TWO_63;
    ModMultiple(q, (x % 2) * TWO_63);
  }

  /** `Shifted` is the seven bits times the power, cut to 64 bits. */
  lemma ShiftedTruncates(b: byte, k: nat)
    requires k < 10
    ensures Shifted(b, k) == (b % 128) * Pow128(k) % TWO_64
  {
    var x := (b % 128) * Pow128(k);
    if k < 9 {
      ShiftedBound(b, k, 0);
      assert Shifted(b, k) == x;
      hide Pow128, Shifted;
      Small(x);
    } else {
      Pow128Values();
      assert x == (b % 128) * TWO_63 && Shifted(b, k) == (b % 128 % 2) * TWO_63;
      hide Pow128, Shifted;
      TopBitIsLeft(b % 128);
    }
  }

  lemma FirstByte(v: nat, rest: Bytes)
    ensures var d := EncVarint(v) + rest;
            if v < 128 then d[0] == v && |EncVarint(v)| == 1
            else d[0] == v % 128 + 128 && d[1..] == EncVarint(v / 128) + rest
                 && |EncVarint(v)| == 1 + |EncVarint(v / 128)|
  {
  }

  /** The last byte of a value below 2^64 is shifted whole. */
  lemma LastShift(v: nat, k: nat, acc: nat)
    requires v < 128 && k < 10 && acc + v * Pow128(k) < TWO_64
    ensures Shifted(v, k) == v * Pow128(k)
  {
    if k == 9 {
      Pow128Values();
      hide Pow128;
      MulMono(2, v, TWO_63);
    }
  }

  lemma SplitProduct(v: nat, p: nat)
    ensures v * p == (v / 128) * (128 * p) + (v % 128) * p
  {
    assert v == 128 * (v / 128) + v % 128;
  }

  lemma RoomForNext(v: nat, k: nat, acc: nat)
    requires v >= 128 && k < 10 && acc + v * Pow128(k) < TWO_64
    ensures k + 1 < 10
  {
    if k == 9 {
      Pow128Values();
      hide Pow128;
      MulMono(128, v, TWO_63);
    }
  }

  lemma {:induction false} ReadFromEncoded(v: nat, rest: Bytes, k: nat, acc: nat)
    requires k < 10 && acc < Pow128(k) && acc < TWO_64
    requires acc + v * Pow128(k) < TWO_64
    ensures ReadFrom(EncVarint(v) + rest, k, acc) == Ok((acc + v * Pow128(k), |EncVarint(v)|))
    decreases v
  {
    var p, d := Pow128(k), EncVarint(v) + rest;
    FirstByte(v, rest);
    if v < 128 {
      LastShift(v, k, acc);
      hide Pow128, Shifted, EncVarint;
    } else {
      var q, m := v / 128, v % 128;
      SplitProduct(v, p);
      RoomForNext(v, k, acc);
      assert Pow128(k + 1) == 128 * p && Shifted(d[0], k) == m * p;
      hide Pow128, Shifted, EncVarint;
      ShiftedBound(d[0], k, acc);
      ReadFromEncoded(q, rest, k + 1, acc + m * p);
    }
  }

  /** Every uint64 is read back from its varint, and reading stops right after it. */
  lemma {:induction false} VarintRoundTrip(v: uint64, rest: Bytes)
    ensures ReadVarint(EncVarint(v) + rest) == Ok((v, |EncVarint(v)|))
  {
    ReadFromEncoded(v, rest, 0, 0);
  }

  /** A varint is read the same whatever follows it. */
  lemma {:induction false} ReadFromLocal(d: Bytes, e: Bytes, k: nat, acc: nat)
    requires k <= 10 && acc < Pow128(k) && acc < TWO_64
    requires ReadFrom(d, k, acc).Ok?
    ensures ReadFrom(d + e, k, acc) == ReadFrom(d, k, acc)
    decreases |d|
  {
    assert (d + e)[0] == d[0];
    if d[0] >= 128 {
      assert (d + e)[1..] == d[1..] + e;
      ShiftedBound(d[0], k, acc);
      ReadFromLocal(d[1..], e, k + 1, acc + Shifted(d[0], k));
    }
  }

  lemma VarintLocal(d: Bytes, e: Bytes)
    requires ReadVarint(d).Ok?
    ensures ReadVarint(d + e) == ReadVarint(d)
  {
    ReadFromLocal(d, e, 0, 0);
  }

  /** The bytes of one varint of at most ten bytes, canonical or not. */
  predicate IsVarint(s: Bytes) {
    && 1 <= |s| <= 10
    && s[|s| - 1] < 128
    && forall i :: 0 <= i < |s| - 1 ==> s[i] >= 128
  }

  lemma VarintTail(b: byte, s: Bytes)
    requires b >= 128
    ensures IsVarint([b] + s) <==> IsVarint(s) && |s| <= 9
  {
    var t := [b] + s;
    assert forall i :: 1 <= i < |t| ==> t[i] == s[i - 1];
    assert forall i :: 0 <= i < |s| ==> s[i] == t[i + 1];
  }

  lemma {:induction false} ReadFromIsVarint(d: Bytes, k: nat, acc: nat, n: nat)
    requires k <= 10 && acc < Pow128(k) && acc < TWO_64
    requires n <= |d|
    ensures (ReadFrom(d, k, acc).Ok? && ReadFrom(d, k, acc).value.1 == n)
            <==> (IsVarint(d[..n]) && n + k <= 10)
    decreases |d|
  {
    if k < 10 && d != [] {
      if d[0] < 128 {
        if n > 1 {
          assert d[..n][0] == d[0];
        }
      } else {
        ShiftedBound(d[0], k, acc);
        if n == 0 {
        } else {
          ReadFromIsVarint(d[1..], k + 1, acc + Shifted(d[0], k), n - 1);
          assert d[..n] == [d[0]] + d[1..][..n - 1];
          VarintTail(d[0], d[1..][..n - 1]);
        }
      }
    }
  }

  /** The reader takes n bytes exactly when the first n bytes form a varint. */
  lemma ReadVarintIff(d: Bytes, n: nat)
    requires n <= |d|
    ensures (ReadVarint(d).Ok? && ReadVarint(d).value.1 == n) <==> IsVarint(d[..n])
  {
    ReadFromIsVarint(d, 0, 0, n);
  }

  // ----- The varint loop on 32-bit fields -----

  /** The loop that decodes an enumeration or a uint32: the same bytes, gathered
      into 32 bits, where a shift of 32 or more bits gives zero. */
  function ReadLow32(d: Bytes, k: nat, acc: nat): (r: Result<(uint32, nat)>)
    decreases |d|
  {
    if k >= 10 then Err(IntOverflow)
    else if d == [] then Err(UnexpectedEof)
    else
      var next: uint32 := (acc + (d[0] % 128) * Pow128(k)) % TWO_32;
      if d[0] < 128 then Ok((next, 1))
      else
        var (v, n) :- ReadLow32(d[1..], k + 1, next);
        Ok((v, n + 1))
  }

  lemma Low32Sum(acc: nat, x: nat)
    ensures (acc % TWO_32 + x) % TWO_32 == (acc + x % TWO_64) % TWO_32
  {
    assert acc == TWO_32 * (acc / TWO_32) + acc % TWO_32;
    assert x == TWO_32 * (TWO_32 * (x / TWO_64)) + x % TWO_64;
  }

  lemma NextLow(b: byte, k: nat, acc: nat)
    requires k < 10
    ensures (acc % TWO_32 + (b % 128) * Pow128(k)) % TWO_32 == (acc + Shifted(b, k)) % TWO_32
  {
    hide *;
    ShiftedTruncates(b, k);
    var x := (b % 128) * Pow128(k);
    Low32Sum(acc, x);
  }

  /** It yields the low 32 bits of the 64-bit value, and takes the same bytes. */
  lemma {:induction false} ReadLow32IsLow(d: Bytes, k: nat, acc: nat)
    requires k <= 10 && acc < Pow128(k) && acc < TWO_64
    ensures ReadLow32(d, k, acc % TWO_32) == match ReadFrom(d, k, acc)
                                             case Ok((v, n)) => Ok((v % TWO_32, n))
                                             case Err(e) => Err(e)
    decreases |d|
  {
    if k < 10 && d != [] {
      NextLow(d[0], k, acc);
      ShiftedBound(d[0], k, acc);
      hide Pow128, Shifted;
      if d[0] >= 128 {
        ReadLow32IsLow(d[1..], k + 1, acc + Shifted(d[0], k));
      }
    }
  }

  // ----- Little-endian fixed width form -----

  function Pow256(n: nat): (p: nat)
    ensures p >= 1
  {
    if n == 0 then 1 else 256 * Pow256(n - 1)
  }

  function LittleEndian(v: nat, n: nat): (s: Bytes)
    ensures |s| == n
    decreases n
  {
    if n == 0 then [] else [v % 256] + LittleEndian(v / 256, n - 1)
  }

  function FromLittleEndian(s: Bytes): (v: nat)
    ensures v < Pow256(|s|)
  {
    if s == [] then 0 else s[0] + 256 * FromLittleEndian(s[1..])
  }

  lemma Pow256Of8()
    ensures Pow256(8) == TWO_64
  {
    assert Pow256(4) == TWO_32;
  }

  lemma {:induction false} LittleEndianRoundTrip(v: nat, n: nat)
    requires v < Pow256(n)
    ensures FromLittleEndian(LittleEndian(v, n)) == v
    decreases n
  {
    if n > 0 {
      assert LittleEndian(v, n)[1..] == LittleEndian(v / 256, n - 1);
      LittleEndianRoundTrip(v / 256, n - 1);
    }
  }

  /** The double's bit pattern read from the next eight bytes. */
  function ReadFixed64(d: Bytes): (r: Result<(uint64, nat)>)
    ensures r.Ok? ==> r.value.1 == 8 <= |d|
  {
    if |d| < 8 then Err(UnexpectedEof)
    else
      Pow256Of8();
      Ok((FromLittleEndian(d[..8]), 8))
  }

  lemma Fixed64RoundTrip(v: uint64, rest: Bytes)
    ensures ReadFixed64(LittleEndian(v, 8) + rest) == Ok((v, 8))
  {
    Pow256Of8();
    LittleEndianRoundTrip(v, 8);
    assert (LittleEndian(v, 8) + rest)[..8] == LittleEndian(v, 8);
  }

  // ----- Skipping unknown fields -----

  /** Skipping a varint looks at the continuation bits only. */
  function SkipVarint(d: Bytes, k: nat): (r: Result<nat>)
    ensures r.Ok? ==> 1 <= r.value <= |d|
    decreases |d|
  {
    if k >= 10 then Err(IntOverflow)
    else if d == [] then Err(UnexpectedEof)
    else if d[0] < 128 then Ok(1)
    else
      var n :- SkipVarint(d[1..], k + 1);
      Ok(n + 1)
  }

  /** The number of bytes that the field at the start of `d` takes. As in the
      source it may point past the end of `d`; the caller compares. */
  function Skip(d: Bytes): (r: Result<nat>)
    ensures r.Ok? ==> r.value >= 1
    decreases |d|, 1
  {
    var (wire, t) :- ReadVarint(d);
    var n :- SkipBody(wire % 8, d[t..]);
    Ok(t + n)
  }

  /** The bytes after the tag, by wire type. */
  function SkipBody(w: nat, d: Bytes): (r: Result<nat>)
    ensures r.Ok? ==> r.value < TWO_63 + |d|
    decreases |d|, 3
  {
    match w
    case 0 => SkipVarint(d, 0)
    case 1 => Ok(8)
    case 2 =>
      var (len, n) :- ReadVarint(d);
      if len >= TWO_63 then Err(InvalidLength) else Ok(n + len)
    case 3 => SkipGroup(d)
    case 4 => Ok(0)
    case 5 => Ok(4)
    case _ => Err(IllegalWireType)
  }

  /** The fields of a group up to and with its end tag. */
  function SkipGroup(d: Bytes): (r: Result<nat>)
    ensures r.Ok? ==> 1 <= r.value <= |d|
    decreases |d|, 2
  {
    var (wire, t) :- ReadVarint(d);
    if wire % 8 == 4 then Ok(t)
    else
      var n :- Skip(d);
      if n > |d| then Err(UnexpectedEof)
      else
        var rest :- SkipGroup(d[n..]);
        Ok(n + rest)
  }
}
