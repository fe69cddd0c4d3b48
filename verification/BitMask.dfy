/** Bit masks of named flags (`BitMask` in matter/encoding/__init__.py). A field's name is its place in the list. */
module BitMask {
  import opened Wrappers
  import opened Bytes
  import BitStruct

  datatype Flag = Flag(position: nat, value: bool)

  /** `x | (1 << i)` or `x & ~(1 << i)`. */
  function WithBit(x: nat, i: nat, v: bool): nat {
    if i == 0 then 2 * (x / 2) + Digit(v) else x % 2 + 2 * WithBit(x / 2, i - 1, v)
  }

  lemma {:induction false} WithBitIs(x: nat, i: nat, v: bool, j: nat)
    ensures BitStruct.Bit(WithBit(x, i, v), j) == if i == j then v else BitStruct.Bit(x, j)
  {
    if i > 0 {
      var rest := WithBit(x / 2, i - 1, v);
      assert (x % 2 + 2 * rest) / 2 == rest && (x % 2 + 2 * rest) % 2 == x % 2;
      if j > 0 { WithBitIs(x / 2, i - 1, v, j - 1); }
    }
  }

  lemma {:induction false} WithBitBound(x: nat, i: nat, v: bool, n: nat)
    requires x < Pow2(n) && i < n
    ensures WithBit(x, i, v) < Pow2(n)
  {
    if i > 0 { WithBitBound(x / 2, i - 1, v, n - 1); }
  }

  function SetBit(x: byte, i: nat, v: bool): byte
    requires i < 8
  {
    WithBitBound(x, i, v, 8);
    assert Pow2(8) == 256;
    WithBit(x, i, v)
  }

  /** The flag at a position of a string of octets. */
  predicate FlagAt(data: seq<byte>, position: nat)
    requires position / 8 < |data|
  {
    BitStruct.Bit(data[position / 8], position % 8)
  }

  function Put(out: seq<byte>, f: Flag): (r: Result<seq<byte>>)
    ensures r.Success? ==> |r.value| == |out|
  {
    var b := f.position / 8;
    if b >= |out| then Failure(IndexError) else Success(out[b := SetBit(out[b], f.position % 8, f.value)])
  }

  function PutAll(out: seq<byte>, flags: seq<Flag>): (r: Result<seq<byte>>)
    ensures r.Success? ==> |r.value| == |out|
    decreases |flags|
  {
    if flags == [] then Success(out)
    else
      var next :- Put(out, flags[0]);
      PutAll(next, flags[1..])
  }

  function Zeros(size: nat): (r: seq<byte>)
    ensures |r| == size && forall i | 0 <= i < size :: r[i] == 0
  {
    seq(size, _ => 0)
  }

  function Encode(size: nat, flags: seq<Flag>): (r: Result<seq<byte>>)
    ensures r.Success? ==> |r.value| == size
  {
    PutAll(Zeros(size), flags)
  }

  function ReadAll(data: seq<byte>, positions: seq<nat>): Result<seq<bool>> {
    if positions == [] then Success([])
    else if positions[0] / 8 >= |data| then Failure(IndexError)
    else
      var rest :- ReadAll(data, positions[1..]);
      Success([FlagAt(data, positions[0])] + rest)
  }

  function Decode(size: nat, positions: seq<nat>, data: seq<byte>): Result<seq<bool>> {
    if |data| < size then Failure(ValueError) else ReadAll(data, positions)
  }

  // ---------------------------------------------------------------------- the loops

  method EncodeToBytes(size: nat, flags: seq<Flag>) returns (r: Result<seq<byte>>)
    ensures r == Encode(size, flags)
  {
    var out := new byte[size](_ => 0);
    assert out[..] == Zeros(size);
    assert flags[0..] == flags;
    for k := 0 to |flags|
      invariant PutAll(out[..], flags[k..]) == Encode(size, flags)
    {
      var f := flags[k];
      ghost var was, rest := out[..], flags[k..];
      assert rest[0] == f && rest[1..] == flags[k + 1..];
      var b := f.position / 8;
      if b >= size {
        return Failure(IndexError);
      }
      out[b] := SetBit(out[b], f.position % 8, f.value);
      assert out[..] == was[b := SetBit(was[b], f.position % 8, f.value)];
    }
    return Success(out[..]);
  }

  method DecodeFromBytes(size: nat, positions: seq<nat>, data: seq<byte>) returns (r: Result<seq<bool>>)
    ensures r == Decode(size, positions, data)
  {
    hide FlagAt;
    if |data| < size {
      return Failure(ValueError);
    }
    var values: seq<bool> := [];
    assert positions[0..] == positions;
    if ReadAll(data, positions).Success? {
      assert [] + ReadAll(data, positions).value == ReadAll(data, positions).value;
    }
    for k := 0 to |positions|
      invariant ReadAll(data, positions) == Appended(values, ReadAll(data, positions[k..]))
    {
      ghost var rest := positions[k..];
      assert rest[0] == positions[k] && rest[1..] == positions[k + 1..];
      if positions[k] / 8 >= |data| {
        return Failure(IndexError);
      }
      ghost var was := values;
      values := values + [FlagAt(data, positions[k])];
      ghost var later := ReadAll(data, positions[k + 1..]);
      if later.Success? { assert was + ([FlagAt(data, positions[k])] + later.value) == values + later.value; }
    }
    assert values + [] == values;
    return Success(values);
  }

  // ---------------------------------------------------------------------- laws

  /** Encoding fails exactly when a position lies outside the octets. */
  lemma {:induction false} PutAllSucceedsIff(out: seq<byte>, flags: seq<Flag>)
    ensures PutAll(out, flags).Success? <==> forall f | f in flags :: f.position < 8 * |out|
    ensures PutAll(out, flags).Failure? ==> PutAll(out, flags).error == IndexError
    decreases |flags|
  {
    if flags != [] {
      assert flags == [flags[0]] + flags[1..];
      if flags[0].position < 8 * |out| { PutAllSucceedsIff(Put(out, flags[0]).value, flags[1..]); }
    }
    hide SetBit;
  }

  /** The value of the last flag at the position, or else the given one. */
  function LastAt(flags: seq<Flag>, position: nat, default: bool): bool {
    if flags == [] then default
    else LastAt(flags[1..], position, if flags[0].position == position then flags[0].value else default)
  }

  lemma PutIs(out: seq<byte>, f: Flag, position: nat)
    requires Put(out, f).Success? && position / 8 < |out|
    ensures FlagAt(Put(out, f).value, position) == if f.position == position then f.value else FlagAt(out, position)
  {
    WithBitIs(out[f.position / 8], f.position % 8, f.value, position % 8);
    hide BitStruct.Bit, WithBit;
  }

  lemma {:induction false} PutAllIs(out: seq<byte>, flags: seq<Flag>, position: nat)
    requires PutAll(out, flags).Success? && position / 8 < |out|
    ensures FlagAt(PutAll(out, flags).value, position) == LastAt(flags, position, FlagAt(out, position))
    decreases |flags|
  {
    hide FlagAt, Put;
    if flags != [] {
      PutIs(out, flags[0], position);
      PutAllIs(Put(out, flags[0]).value, flags[1..], position);
    }
  }

  function Positions(flags: seq<Flag>): (r: seq<nat>)
    ensures |r| == |flags| && forall i | 0 <= i < |flags| :: r[i] == flags[i].position
  {
    seq(|flags|, i requires 0 <= i < |flags| => flags[i].position)
  }

  lemma {:induction false} ReadAllIs(data: seq<byte>, positions: seq<nat>)
    requires forall i | 0 <= i < |positions| :: positions[i] / 8 < |data|
    ensures ReadAll(data, positions).Success? && |ReadAll(data, positions).value| == |positions|
    ensures forall i | 0 <= i < |positions| :: ReadAll(data, positions).value[i] == FlagAt(data, positions[i])
  {
    hide FlagAt;
    if positions != [] { ReadAllIs(data, positions[1..]); }
  }

  /** What encodes is read back flag by flag, whatever follows; of flags at one position the last one counts. */
  lemma RoundTrip(size: nat, flags: seq<Flag>, rest: seq<byte>)
    ensures Encode(size, flags).Success? <==> forall f | f in flags :: f.position < 8 * size
    ensures Encode(size, flags).Success? ==>
              var r := Decode(size, Positions(flags), Encode(size, flags).value + rest);
              && r.Success? && |r.value| == |flags|
              && forall i | 0 <= i < |flags| :: r.value[i] == LastAt(flags, flags[i].position, false)
  {
    PutAllSucceedsIff(Zeros(size), flags);
    if Encode(size, flags).Success? {
      var e := Encode(size, flags).value;
      forall i | 0 <= i < |flags| ensures flags[i].position / 8 < size {
        assert flags[i] in flags;
      }
      ReadAllIs(e + rest, Positions(flags));
      forall i | 0 <= i < |flags|
        ensures FlagAt(e + rest, flags[i].position) == LastAt(flags, flags[i].position, false)
      {
        assert flags[i] in flags;
        PutAllIs(Zeros(size), flags, flags[i].position);
        ZeroBit(flags[i].position % 8);
      }
      hide FlagAt, LastAt;
    }
  }

  lemma {:induction false} ZeroBit(i: nat)
    ensures !BitStruct.Bit(0, i)
  {
    if i > 0 { ZeroBit(i - 1); }
  }

  lemma {:induction false} LastIs(flags: seq<Flag>, position: nat, default: bool)
    ensures (exists f :: f in flags && f.position == position) ==>
              exists f :: f in flags && f.position == position && f.value == LastAt(flags, position, default)
  {
    if flags != [] {
      var next := if flags[0].position == position then flags[0].value else default;
      LastIs(flags[1..], position, next);
      assert flags == [flags[0]] + flags[1..];
      if flags[0].position == position && !exists f :: f in flags[1..] && f.position == position {
        NoneAt(flags[1..], position, next);
      }
    }
  }

  lemma {:induction false} NoneAt(flags: seq<Flag>, position: nat, default: bool)
    requires forall f | f in flags :: f.position != position
    ensures LastAt(flags, position, default) == default
  {
    if flags != [] { NoneAt(flags[1..], position, default); }
  }

  /** The flags come back as they were exactly when flags at one position agree. */
  lemma RoundTripIff(size: nat, flags: seq<Flag>, rest: seq<byte>)
    requires Encode(size, flags).Success?
    ensures var r := Decode(size, Positions(flags), Encode(size, flags).value + rest);
            r.Success? && |r.value| == |flags|
            && ((forall i | 0 <= i < |flags| :: r.value[i] == flags[i].value) <==>
                forall i, j | 0 <= i < |flags| && 0 <= j < |flags| && flags[i].position == flags[j].position ::
                  flags[i].value == flags[j].value)
  {
    RoundTrip(size, flags, rest);
    hide Encode, Decode, LastAt, Positions;
    forall i | 0 <= i < |flags|
      ensures exists j :: 0 <= j < |flags| && flags[j].position == flags[i].position
                          && flags[j].value == LastAt(flags, flags[i].position, false)
    {
      assert flags[i] in flags;
      LastIs(flags, flags[i].position, false);
    }
  }

  /** A mask of one octet whose flags all have different positions: its bits are the flags. */
  lemma OctetBits(flags: seq<Flag>)
    requires forall i | 0 <= i < |flags| :: flags[i].position < 8
    requires forall i, j | 0 <= i < j < |flags| :: flags[i].position != flags[j].position
    ensures Encode(1, flags).Success?
    ensures forall i | 0 <= i < |flags| :: BitStruct.Bit(Encode(1, flags).value[0], flags[i].position) == flags[i].value
  {
    PutAllSucceedsIff(Zeros(1), flags);
    forall i | 0 <= i < |flags| ensures BitStruct.Bit(Encode(1, flags).value[0], flags[i].position) == flags[i].value {
      PutAllIs(Zeros(1), flags, flags[i].position);
      assert flags[i] in flags;
      LastIs(flags, flags[i].position, FlagAt(Zeros(1), flags[i].position));
      hide BitStruct.Bit, LastAt, Encode;
    }
  }

  /** A bit no flag names is zero. */
  lemma OtherBits(flags: seq<Flag>, position: nat)
    requires position < 8 && forall f | f in flags :: f.position < 8 && f.position != position
    ensures Encode(1, flags).Success? && !BitStruct.Bit(Encode(1, flags).value[0], position)
  {
    PutAllSucceedsIff(Zeros(1), flags);
    PutAllIs(Zeros(1), flags, position);
    NoneAt(flags, position, FlagAt(Zeros(1), position));
    ZeroBit(position);
    hide BitStruct.Bit, LastAt, PutAll;
  }

  /** Decoding fails for too few octets, or for a position outside those there are, each with its own exception. */
  lemma {:induction false} DecodeRaises(size: nat, positions: seq<nat>, data: seq<byte>)
    ensures |data| < size ==> Decode(size, positions, data) == Failure(ValueError)
    ensures |data| >= size ==>
              (Decode(size, positions, data).Failure? <==>
               exists i :: 0 <= i < |positions| && positions[i] >= 8 * |data|)
              && (Decode(size, positions, data).Failure? ==> Decode(size, positions, data) == Failure(IndexError))
  {
    hide FlagAt;
    if positions != [] && |data| >= size {
      DecodeRaises(size, positions[1..], data);
      assert forall i | 0 < i < |positions| :: positions[i] == positions[1..][i - 1];
      if positions[0] < 8 * |data| && Decode(size, positions[1..], data).Failure? {
        var i :| 0 <= i < |positions| - 1 && positions[1..][i] >= 8 * |data|;
        assert positions[i + 1] >= 8 * |data|;
      }
    }
  }
}
