/** The loops of the codec over byte arrays and indices: each is proved equal to
    the function of the same purpose in Wire or Wrapping (cluegetter.pb.go, lines
    736-762, 1008-1017, 1027-1040, 2779-2877). */
module CodecBuffers {
  import opened Wire
  import opened Schema
  import opened Wrapping

  // ----- Writing -----

  method Sov(x: nat) returns (n: nat)
    ensures n == |EncVarint(x)|
  {
    n := 0;
    var v: nat := x;
    while true
      invariant n + |EncVarint(v)| == |EncVarint(x)|
      decreases v
    {
      n := n + 1;
      if v / 128 == 0 {
        break;
      }
      v := v / 128;
    }
  }

  method EncodeVarint(a: array<byte>, offset: nat, v: nat) returns (j: nat)
    requires offset + |EncVarint(v)| <= a.Length
    modifies a
    ensures j == offset + |EncVarint(v)|
    ensures a[..j] == old(a[..offset]) + EncVarint(v)
    ensures forall x :: j <= x < a.Length ==> a[x] == old(a[x])
  {
    j := offset;
    var w := v;
    while w >= 128
      invariant offset <= j && j + |EncVarint(w)| == offset + |EncVarint(v)| <= a.Length
      invariant a[..j] + EncVarint(w) == old(a[..offset]) + EncVarint(v)
      invariant forall i :: j <= i < a.Length ==> a[i] == old(a[i])
      decreases w
    {
      ghost var before := a[..j];
      a[j] := w % 128 + 128;
      assert a[..j + 1] == before + [w % 128 + 128];
      w := w / 128;
      j := j + 1;
    }
    a[j] := w;
    j := j + 1;
  }

  lemma FourBytes(v: nat)
    ensures LittleEndian(v, 4) ==
      [v % 0x100, v / 0x100 % 0x100, v / 0x1_0000 % 0x100, v / 0x100_0000 % 0x100]
  {
    var u := v / 0x1_0000;
    assert LittleEndian(u, 2) == [u % 0x100, u / 0x100 % 0x100];
    assert LittleEndian(v / 0x100, 3) == [v / 0x100 % 0x100] + LittleEndian(u, 2);
  }

  lemma SplitFour(v: nat)
    ensures LittleEndian(v, 8) == LittleEndian(v, 4) + LittleEndian(v / 0x1_0000_0000, 4)
  {
    var v1, v2, v3, v4 := v / 0x100, v / 0x1_0000, v / 0x100_0000, v / 0x1_0000_0000;
    assert LittleEndian(v, 8) == [v % 256] + LittleEndian(v1, 7);
    assert v1 / 256 == v2 && LittleEndian(v1, 7) == [v1 % 256] + LittleEndian(v2, 6);
    assert v2 / 256 == v3 && LittleEndian(v2, 6) == [v2 % 256] + LittleEndian(v3, 5);
    assert v3 / 256 == v4 && LittleEndian(v3, 5) == [v3 % 256] + LittleEndian(v4, 4);
    FourBytes(v);
  }

  lemma LittleEndianBytes(v: uint64)
    ensures LittleEndian(v, 8) ==
      [v % 0x100, v / 0x100 % 0x100, v / 0x1_0000 % 0x100, v / 0x100_0000 % 0x100,
       v / 0x1_0000_0000 % 0x100, v / 0x100_0000_0000 % 0x100, v / 0x1_0000_0000_0000 % 0x100,
       v / 0x100_0000_0000_0000 % 0x100]
  {
    var w := v / 0x1_0000_0000;
    FourBytes(v);
    FourBytes(w);
    assert LittleEndian(v, 8) == LittleEndian(v, 4) + LittleEndian(w, 4) by { SplitFour(v); }
    assert w / 0x100 == v / 0x100_0000_0000;
    assert w / 0x1_0000 == v / 0x1_0000_0000_0000;
    assert w / 0x100_0000 == v / 0x100_0000_0000_0000;
  }

  /** The eight assignments of encodeFixed64. */
  method EncodeFixed64(a: array<byte>, offset: nat, v: uint64) returns (j: nat)
    requires offset + 8 <= a.Length
    modifies a
    ensures j == offset + 8
    ensures a[..j] == old(a[..offset]) + LittleEndian(v, 8)
    ensures forall x :: j <= x < a.Length ==> a[x] == old(a[x])
  {
    a[offset] := v % 0x100;
    a[offset + 1] := v / 0x100 % 0x100;
    a[offset + 2] := v / 0x1_0000 % 0x100;
    a[offset + 3] := v / 0x100_0000 % 0x100;
    a[offset + 4] := v / 0x1_0000_0000 % 0x100;
    a[offset + 5] := v / 0x100_0000_0000 % 0x100;
    a[offset + 6] := v / 0x1_0000_0000_0000 % 0x100;
    a[offset + 7] := v / 0x100_0000_0000_0000 % 0x100;
    j := offset + 8;
    LittleEndianBytes(v);
    assert a[offset..j] == LittleEndian(v, 8);
    assert a[..j] == a[..offset] + a[offset..j];
  }

  /** `copy(data[i:], s)` */
  method Copy(a: array<byte>, i: nat, s: Bytes) returns (j: nat)
    requires i + |s| <= a.Length
    modifies a
    ensures j == i + |s|
    ensures a[..j] == old(a[..i]) + s
    ensures forall x :: j <= x < a.Length ==> a[x] == old(a[x])
  {
    j := i;
    while j < i + |s|
      invariant i <= j <= i + |s|
      invariant a[..j] == old(a[..i]) + s[..j - i]
      invariant forall x :: j <= x < a.Length ==> a[x] == old(a[x])
    {
      ghost var before := a[..j];
      a[j] := s[j - i];
      assert a[..j + 1] == before + [s[j - i]];
      j := j + 1;
    }
  }

  // ----- Reading -----

  /** The varint loop of the decoders at index i of `data`. */
  method ReadVarintAt(data: Bytes, i: nat) returns (r: Result<(uint64, nat)>)
    ensures i <= |data| ==> r == ReadVarint(data[i..])
    ensures i > |data| ==> r == Err(UnexpectedEof)
  {
    hide Pow128, Shifted;
    if i > |data| {
      return Err(UnexpectedEof);
    }
    var shift, j, v: uint64 := 0, i, 0;
    ghost var k := 0;
    while true
      invariant shift == 7 * k && k <= 10 && i + k == j <= |data|
      invariant v < Pow128(k)
      invariant ReadVarint(data[i..]) == match ReadFrom(data[j..], k, v)
                                         case Ok((x, n)) => Ok((x, n + k))
                                         case Err(e) => Err(e)
      decreases |data| - j
    {
      if shift >= 64 {
        return Err(IntOverflow);
      }
      if j >= |data| {
        return Err(UnexpectedEof);
      }
      var b := data[j];
      assert data[j..][0] == b && data[j..][1..] == data[j + 1..];
      ShiftedBound(b, k, v);
      j := j + 1;
      v := v + Shifted(b, shift / 7);
      if b < 128 {
        return Ok((v, j - i));
      }
      shift := shift + 7;
      k := k + 1;
    }
  }

  /** The or of the eight shifted bytes; each shift is past the bits before it. */
  function EightBytes(b0: int, b1: int, b2: int, b3: int, b4: int, b5: int, b6: int, b7: int): int {
    b0 + b1 * 0x100 + b2 * 0x1_0000 + b3 * 0x100_0000 + b4 * 0x1_0000_0000
    + b5 * 0x100_0000_0000 + b6 * 0x1_0000_0000_0000 + b7 * 0x100_0000_0000_0000
  }

  lemma FromTail(s: Bytes, k: nat)
    requires k < |s|
    ensures FromLittleEndian(s[k..]) == s[k] + 256 * FromLittleEndian(s[k + 1..])
  {
    assert s[k..][1..] == s[k + 1..];
  }

  lemma FromEightBytes(s: Bytes)
    requires |s| == 8
    ensures FromLittleEndian(s) == EightBytes(s[0], s[1], s[2], s[3], s[4], s[5], s[6], s[7])
  {
    assert FromLittleEndian(s[8..]) == 0;
    FromTail(s, 7); FromTail(s, 6); FromTail(s, 5); FromTail(s, 4);
    FromTail(s, 3); FromTail(s, 2); FromTail(s, 1);
  }

  method ReadFixed64At(data: Bytes, i: nat) returns (r: Result<(uint64, nat)>)
    requires i <= |data|
    ensures r == ReadFixed64(data[i..])
  {
    if i + 8 > |data| {
      return Err(UnexpectedEof);
    }
    var v := EightBytes(data[i], data[i + 1], data[i + 2], data[i + 3],
                        data[i + 4], data[i + 5], data[i + 6], data[i + 7]);
    FromEightBytes(data[i..][..8]);
    return Ok((v, 8));
  }

  method SkipVarintAt(data: Bytes, i: nat) returns (r: Result<nat>)
    requires i <= |data|
    ensures r == SkipVarint(data[i..], 0)
  {
    var shift, j := 0, i;
    ghost var k := 0;
    while true
      invariant shift == 7 * k && k <= 10 && i + k == j <= |data|
      invariant SkipVarint(data[i..], 0) == match SkipVarint(data[j..], k)
                                            case Ok(n) => Ok(n + k)
                                            case Err(e) => Err(e)
      decreases |data| - j
    {
      if shift >= 64 {
        return Err(IntOverflow);
      }
      if j >= |data| {
        return Err(UnexpectedEof);
      }
      assert data[j..][0] == data[j] && data[j..][1..] == data[j + 1..];
      j := j + 1;
      if data[j - 1] < 128 {
        return Ok(j - i);
      }
      shift := shift + 7;
      k := k + 1;
    }
  }

  /** skipCluegetter on `data[i:]`, whose own index starts at zero. */
  method SkipAt(data: Bytes, i: nat) returns (r: Result<int>)
    requires i <= |data| < MAX_LENGTH
    ensures r == SkipWrapped(data[i..])
    decreases |data| - i, 1
  {
    hide ReadVarint, SkipVarint, SkipGroupWrapped;
    if i == |data| {
      return Err(Panicked);
    }
    var tag := ReadVarintAt(data, i);
    if tag.Err? {
      return Err(tag.error);
    }
    var (wire, t) := tag.value;
    var at := i + t;
    assert data[i..][t..] == data[at..];
    match wire % 8 {
      case 0 =>
        var n := SkipVarintAt(data, at);
        return if n.Ok? then Ok(t + n.value) else Err(n.error);
      case 1 =>
        return Ok(t + 8);
      case 2 =>
        var length := ReadVarintAt(data, at);
        if length.Err? {
          return Err(length.error);
        }
        if length.value.0 >= TWO_63 {
          return Err(InvalidLength);
        }
        return Ok(Wrap(t + length.value.1 + length.value.0));
      case 3 =>
        r := SkipGroupAt(data, i, t);
      case 4 =>
        return Ok(t);
      case 5 =>
        return Ok(t + 4);
      case _ =>
        return Err(IllegalWireType);
    }
  }

  /** The loop over the fields of a group, at an index of `data[i:]`. */
  method SkipGroupAt(data: Bytes, i: nat, first: nat) returns (r: Result<int>)
    requires i <= |data| < MAX_LENGTH && 1 <= first <= |data| - i
    ensures r == SkipGroupWrapped(data[i..], first)
    decreases |data| - i - first, 2
  {
    hide ReadVarint, SkipWrapped;
    var at := first;
    ghost var d := data[i..];
    while true
      invariant first <= at <= |d|
      invariant SkipGroupWrapped(d, first) == SkipGroupWrapped(d, at)
      decreases |d| - at
    {
      var start := at;
      assert d[at..] == data[i + at..];
      var tag := ReadVarintAt(data, i + at);
      if tag.Err? {
        return Err(tag.error);
      }
      if tag.value.0 % 8 == 4 {
        return Ok(at + tag.value.1);
      }
      var next := SkipAt(data, i + start);
      if next.Err? {
        return Err(next.error);
      }
      // A negative index is below the length, and reading at it panics.
      if next.value < 0 || Wrap(start + next.value) < 0 {
        return Err(Panicked);
      }
      if start + next.value > |data| - i {
        return Err(UnexpectedEof);
      }
      at := start + next.value;
    }
  }

  method ReadPayloadAt(num: FieldNum, wireType: nat, data: Bytes, i: nat) returns (r: Result<(Field, nat)>)
    requires i <= |data| < MAX_LENGTH
    ensures r == ReadPayloadWrapped(num, wireType, data, i)
  {
    hide ReadVarint, ReadFixed64;
    if wireType == 1 {
      var v := ReadFixed64At(data, i);
      return if v.Ok? then Ok((Fixed64F(num, v.value.0), v.value.1)) else Err(v.error);
    }
    var v := ReadVarintAt(data, i);
    if v.Err? {
      return Err(v.error);
    }
    var (x, n) := v.value;
    if wireType == 0 {
      return Ok((VarintF(num, x), n));
    }
    if x >= TWO_63 {
      return Err(InvalidLength);
    }
    var postIndex := Wrap(i + n + x);
    // A slice that ends at a negative index panics.
    if postIndex < 0 {
      return Err(Panicked);
    }
    if postIndex > |data| {
      return Err(UnexpectedEof);
    }
    return Ok((BytesF(num, data[i + n..postIndex]), n + x));
  }

  /** The head of every pass of Unmarshal: the tag, the checks on it, and either
      the payload of a field that the type knows or the skipping of another. */
  method ReadItemAt(k: Kind, data: Bytes, i: nat) returns (r: Result<(Option<Field>, nat)>)
    requires i < |data| < MAX_LENGTH
    ensures r == ReadItemWrapped(k, data, i)
  {
    hide ReadVarint, SkipWrapped, ReadPayloadWrapped, Expected, ToInt32;
    var tag := ReadVarintAt(data, i);
    if tag.Err? {
      return Err(tag.error);
    }
    var (wire, t) := tag.value;
    var num := ToInt32(wire / 8);
    if wire % 8 == 4 {
      return Err(EndGroup);
    }
    if num <= 0 {
      return Err(IllegalTag);
    }
    var expected := Expected(k, num);
    if expected.None? {
      var skippy := SkipAt(data, i);
      if skippy.Err? {
        return Err(skippy.error);
      }
      if skippy.value < 0 {
        return Err(InvalidLength);
      }
      // A wrapped index is not past the end, and the next pass reads at it.
      if Wrap(i + skippy.value) < 0 {
        return Err(Panicked);
      }
      if i + skippy.value > |data| {
        return Err(UnexpectedEof);
      }
      return Ok((None, skippy.value));
    }
    if expected.value != wire % 8 {
      return Err(WrongWireType);
    }
    var payload := ReadPayloadAt(num, wire % 8, data, i + t);
    if payload.Err? {
      return Err(payload.error);
    }
    return Ok((Some(payload.value.0), t + payload.value.1));
  }
}
