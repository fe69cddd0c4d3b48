/**
 The generic bit packer (`BitStruct`), least significant bit first. `LowBits(x, n)` is x & (2**n - 1),
 `Shr(x, n)` is x >> n, and a | (b << n) is written a + Pow2(n) * b where a < 2^n.
 */
module BitStruct {
  import opened Wrappers
  import opened Bytes

  /** A field's width and integer value; a nameless field has value 0. */
  datatype Field = Field(width: nat, value: int)

  /** A field's width and whether it is named; nameless fields are skipped by the decoder. */
  datatype Slot = Slot(width: nat, named: bool)

  function LowBits(x: nat, n: nat): (r: nat)
    ensures r < Pow2(n)
  {
    if n == 0 then 0 else x % 2 + 2 * LowBits(x / 2, n - 1)
  }

  function Shr(x: nat, n: nat): nat {
    if n == 0 then x else Shr(x / 2, n - 1)
  }

  /** `x & (1 << p)` is not zero. */
  predicate Bit(x: nat, p: nat) {
    Shr(x, p) % 2 == 1
  }

  function TotalBits(fields: seq<Field>): nat {
    if fields == [] then 0 else fields[0].width + TotalBits(fields[1..])
  }

  /** A value is first written as ceil(width / 8) whole bytes. */
  predicate FitsBytes(f: Field) {
    0 <= f.value < Pow256((f.width + 7) / 8)
  }

  predicate AllFitBytes(fields: seq<Field>) {
    forall i | 0 <= i < |fields| :: FitsBytes(fields[i])
  }

  /** The sum of every value, cut to its width, times two to the number of bits before it. */
  function Pack(fields: seq<Field>): (n: nat)
    requires AllFitBytes(fields)
  {
    if fields == [] then 0
    else Tail(fields[0].value, fields[0].width, Pack(fields[1..]))
  }

  /** The low n bits of x in front of (below) the rest. */
  function Tail(x: nat, n: nat, rest: nat): nat {
    MulNat(Pow2(n), rest);
    LowBits(x, n) + Pow2(n) * rest
  }

  function Encode(fields: seq<Field>): Result<seq<byte>> {
    if AllFitBytes(fields) then Success(Le(Pack(fields), (TotalBits(fields) + 7) / 8)) else Failure(OverflowError)
  }

  function SlotBits(slots: seq<Slot>): nat {
    if slots == [] then 0 else slots[0].width + SlotBits(slots[1..])
  }

  /** Field k is bits offset_k .. offset_k + width_k of the number. */
  function Unpack(n: nat, slots: seq<Slot>): (r: seq<Option<nat>>)
    ensures |r| == |slots|
    decreases slots
  {
    if slots == [] then []
    else
      var first := if slots[0].named then Some(LowBits(n, slots[0].width)) else None;
      [first] + Unpack(Shr(n, slots[0].width), slots[1..])
  }

  function Decode(data: seq<byte>, slots: seq<Slot>): (r: Result<seq<Option<nat>>>)
    ensures r.Success? ==> |r.value| == |slots|
  {
    if |data| < (SlotBits(slots) + 7) / 8 then Failure(ValueError) else Success(Unpack(FromLe(data), slots))
  }

  // ---------------------------------------------------------------------- arithmetic

  lemma MulNat(a: int, b: int)
    requires a >= 0 && b >= 0
    ensures a * b >= 0
  {
  }

  lemma MulLess(a: int, b: int, p: int)
    requires 0 <= a < b && p >= 0
    ensures p * a + p <= p * b
  {
    MulNat(p, b - a - 1);
    assert p * (b - a - 1) == p * b - p * a - p;
  }

  lemma Regroup(p: int, q: int, x: int, y: int)
    ensures p * (x + q * y) == p * x + (p * q) * y
  {
    assert p * (x + q * y) == p * x + p * (q * y);
    assert p * (q * y) == (p * q) * y;
  }

  lemma Double(p: int, y: int)
    ensures 2 * (p * y) == (2 * p) * y
  {
  }

  /** A number is its low n bits and, above them, the rest. */
  lemma {:induction false} SplitBits(x: nat, n: nat)
    ensures x == LowBits(x, n) + Pow2(n) * Shr(x, n)
  {
    if n > 0 {
      SplitBits(x / 2, n - 1);
      Double(Pow2(n - 1), Shr(x / 2, n - 1));
    }
  }

  /** Only one pair of a number below 2^n and a multiple of 2^n adds up to x. */
  lemma SplitUnique(x: nat, n: nat, low: nat, high: nat)
    requires low < Pow2(n) && x == low + Pow2(n) * high
    ensures LowBits(x, n) == low && Shr(x, n) == high
  {
    SplitBits(x, n);
    var p := Pow2(n);
    if Shr(x, n) < high { MulLess(Shr(x, n), high, p); }
    if high < Shr(x, n) { MulLess(high, Shr(x, n), p); }
  }

  lemma Divide(x: nat, p: nat)
    requires p > 0
    ensures x == x % p + p * (x / p) && x / p >= 0
  {
  }

  lemma LowBitsIsMod(x: nat, n: nat)
    ensures LowBits(x, n) == x % Pow2(n) && Shr(x, n) == x / Pow2(n)
  {
    Divide(x, Pow2(n));
    hide Pow2;
    SplitUnique(x, n, x % Pow2(n), x / Pow2(n));
  }

  lemma {:induction false} LowBitsAdd(x: nat, a: nat, b: nat)
    ensures LowBits(x, a + b) == LowBits(x, a) + Pow2(a) * LowBits(Shr(x, a), b)
    ensures Shr(x, a + b) == Shr(Shr(x, a), b)
    decreases a
  {
    if a > 0 {
      LowBitsAdd(x / 2, a - 1, b);
      Double(Pow2(a - 1), LowBits(Shr(x / 2, a - 1), b));
    }
  }

  lemma TailBound(x: nat, n: nat, rest: nat, m: nat)
    requires rest < Pow2(m)
    ensures Tail(x, n, rest) < Pow2(n + m)
  {
    MulLess(rest, Pow2(m), Pow2(n));
    Pow2Add(n, m);
  }

  lemma {:induction false} PackBound(fields: seq<Field>)
    requires AllFitBytes(fields)
    ensures Pack(fields) < Pow2(TotalBits(fields))
  {
    if fields != [] {
      PackBound(fields[1..]);
      TailBound(fields[0].value, fields[0].width, Pack(fields[1..]), TotalBits(fields[1..]));
    }
  }

  lemma TailSplit(x: nat, n: nat, r: nat, rest: nat)
    requires n <= r
    ensures Tail(x, r, rest) == Tail(x, n, Tail(Shr(x, n), r - n, rest))
  {
    LowBitsAdd(x, n, r - n);
    Pow2Add(n, r - n);
    Regroup(Pow2(n), Pow2(r - n), LowBits(Shr(x, n), r - n), rest);
  }

  lemma {:induction false} PowMono(a: nat, b: nat)
    requires a <= b
    ensures Pow2(a) <= Pow2(b)
    decreases b
  {
    if a < b {
      PowMono(a, b - 1);
    }
  }

  // ---------------------------------------------------------------------- the encoder

  /** The number held by the finished bytes and, above them, the byte under construction. */
  ghost function Held(out: seq<byte>, cur: int): int {
    FromLe(out) + Pow256(|out|) * cur
  }

  lemma HeldPut(out: seq<byte>, cur: int, pos: nat, x: int)
    ensures Held(out, cur + Pow2(pos) * x) == Held(out, cur) + Pow2(8 * |out| + pos) * x
  {
    Pow256IsPow2(|out|);
    Pow2Add(8 * |out|, pos);
    Regroup(Pow256(|out|), Pow2(pos), cur, x);
  }

  lemma HeldFlush(out: seq<byte>, cur: byte)
    ensures Held(out + [cur], 0) == Held(out, cur)
  {
    FromLeConcat(out, [cur]);
  }

  /** What is held, and what is still to be written above it, add up to the packed number. */
  ghost predicate Balanced(total: int, out: seq<byte>, cur: int, pos: nat, todo: int) {
    && 0 <= cur < Pow2(pos)
    && total == Held(out, cur) + Pow2(8 * |out| + pos) * todo
  }

  lemma PutBelow(cur: int, pos: nat, low: nat, n: nat)
    requires 0 <= cur < Pow2(pos) && low < Pow2(n)
    ensures 0 <= cur + Pow2(pos) * low < Pow2(pos + n)
  {
    Pow2Add(pos, n);
    hide Pow2;
    MulLess(low, Pow2(n), Pow2(pos));
    MulNat(Pow2(pos), low);
  }

  lemma PutBalanced(total: int, out: seq<byte>, cur: int, pos: nat, x: nat, n: nat, rest: nat)
    requires Balanced(total, out, cur, pos, Tail(x, n, rest))
    ensures Balanced(total, out, cur + Pow2(pos) * LowBits(x, n), pos + n, rest)
  {
    var low := LowBits(x, n);
    hide Pow2, LowBits, Held;
    HeldPut(out, cur, pos, low);
    Pow2Add(8 * |out| + pos, n);
    Regroup(Pow2(8 * |out| + pos), Pow2(n), low, rest);
    PutBelow(cur, pos, low, n);
  }

  /** The innermost loop: the low `width` bits of one byte go out, filling bytes as they complete. */
  method PutByte(ghost total: int, out: seq<byte>, cur: byte, pos: nat, b: byte, width: nat, ghost rest: nat)
    returns (out': seq<byte>, cur': byte, pos': nat)
    requires width <= 8 && pos < 8 && Balanced(total, out, cur, pos, Tail(b, width, rest))
    ensures pos' < 8 && Balanced(total, out', cur', pos', rest)
    ensures 8 * |out'| + pos' == 8 * |out| + pos + width
  {
    hide Pow2, LowBits, Held;
    out', cur', pos' := out, cur, pos;
    var left: nat, x: nat := width, b;
    while left != 0
      invariant left <= width && pos' < 8 && Balanced(total, out', cur', pos', Tail(x, left, rest))
      invariant 8 * |out'| + pos' + left == 8 * |out| + pos + width
    {
      var n := if left < 8 - pos' then left else 8 - pos';
      TailSplit(x, n, left, rest);
      PutBalanced(total, out', cur', pos', x, n, Tail(Shr(x, n), left - n, rest));
      PowMono(pos' + n, 8);
      Pow2Eight();
      cur', pos', x, left := cur' + Pow2(pos') * LowBits(x, n), pos' + n, Shr(x, n), left - n;
      if pos' == 8 {
        Flush(total, out', cur', Tail(x, left, rest));
        out', cur', pos' := out' + [cur'], 0, 0;
      }
    }
    NoBits(x, rest);
  }

  lemma Pow2Eight()
    ensures Pow2(8) == 256
  {
  }

  lemma NoBits(x: nat, rest: nat)
    ensures Tail(x, 0, rest) == rest
  {
  }

  lemma Flush(total: int, out: seq<byte>, cur: byte, todo: int)
    requires Balanced(total, out, cur, 8, todo)
    ensures Balanced(total, out + [cur], 0, 0, todo)
  {
    HeldFlush(out, cur);
  }

  /** A value's bytes, from the j-th on, are its remaining bits. */
  lemma ByteByByte(bytes: seq<byte>, w: nat, rest: nat)
    requires bytes != [] && (w < 8 ==> |bytes| == 1)
    ensures Tail(FromLe(bytes), w, rest) ==
            if w < 8 then Tail(bytes[0], w, rest) else Tail(bytes[0], 8, Tail(FromLe(bytes[1..]), w - 8, rest))
  {
    if w < 8 {
      assert bytes[1..] == [];
    } else {
      TailSplit(FromLe(bytes), 8, w, rest);
      Pow2Eight();
      SplitUnique(FromLe(bytes), 8, bytes[0], FromLe(bytes[1..]));
      SplitUnique(bytes[0], 8, bytes[0], 0);
    }
  }

  lemma {:induction false} TotalBitsAppend(fields: seq<Field>, f: Field)
    ensures TotalBits(fields + [f]) == TotalBits(fields) + f.width
  {
    if fields != [] {
      TotalBitsAppend(fields[1..], f);
      assert (fields + [f])[1..] == fields[1..] + [f];
    }
  }

  lemma {:induction false} PackAppend(fields: seq<Field>, f: Field)
    requires AllFitBytes(fields) && FitsBytes(f)
    ensures AllFitBytes(fields + [f])
    ensures Pack(fields + [f]) == Pack(fields) + Pow2(TotalBits(fields)) * LowBits(f.value, f.width)
  {
    var all := fields + [f];
    assert AllFitBytes(all) && forall i | 0 <= i < |fields| :: all[i] == fields[i];
    if fields != [] {
      hide Pow2, LowBits, Pow256, FitsBytes, Tail;
      var w, low := fields[0].width, LowBits(f.value, f.width);
      PackAppend(fields[1..], f);
      assert all[1..] == fields[1..] + [f];
      TailPlus(fields[0].value, w, Pack(fields[1..]), TotalBits(fields[1..]), low);
    } else {
      assert all[1..] == [];
    }
  }

  lemma TailPlus(x: nat, n: nat, rest: nat, m: nat, high: nat)
    ensures rest + Pow2(m) * high >= 0
    ensures Tail(x, n, rest + Pow2(m) * high) == Tail(x, n, rest) + Pow2(n + m) * high
  {
    Pow2Add(n, m);
    hide Pow2, LowBits;
    MulNat(Pow2(m), high);
    Regroup(Pow2(n), Pow2(m), rest, high);
  }

  lemma StartValue(fields: seq<Field>, f: Field, out: seq<byte>, cur: int, pos: nat)
    requires AllFitBytes(fields) && FitsBytes(f)
    requires Balanced(Pack(fields), out, cur, pos, 0) && 8 * |out| + pos == TotalBits(fields)
    ensures AllFitBytes(fields + [f])
    ensures Balanced(Pack(fields + [f]), out, cur, pos, Tail(f.value, f.width, 0))
  {
    PackAppend(fields, f);
    LoneTail(f.value, f.width);
    var before, low := Pack(fields), LowBits(f.value, f.width);
    hide Pow2, LowBits, Held, Pack, Tail, AllFitBytes, FitsBytes;
    assert before == Held(out, cur) + Pow2(8 * |out| + pos) * 0 == Held(out, cur);
  }

  lemma LoneTail(x: nat, n: nat)
    ensures Tail(x, n, 0) == LowBits(x, n)
  {
    hide Pow2, LowBits;
  }

  /** `encode_to_bytes`: the packed number, in as many bytes as its bits need. */
  method EncodeToBytes(fields: seq<Field>) returns (r: Result<seq<byte>>)
    ensures r == Encode(fields)
  {
    hide Pow2, LowBits, Held, Pow256, Tail, Balanced, Pack;
    var out: seq<byte>, cur: byte, pos: nat := [], 0, 0;
    StartBalanced();
    for k := 0 to |fields|
      invariant pos < 8 && AllFitBytes(fields[..k])
      invariant Balanced(Pack(fields[..k]), out, cur, pos, 0)
      invariant 8 * |out| + pos == TotalBits(fields[..k])
    {
      var f := fields[k];
      assert fields[..k + 1] == fields[..k] + [f];
      var value := ToBytes(f.value, (f.width + 7) / 8);
      if value.Failure? {
        assert !FitsBytes(fields[k]);
        return Failure(OverflowError);
      }
      FromLeOfLe(f.value, (f.width + 7) / 8);
      StartValue(fields[..k], f, out, cur, pos);
      TotalBitsAppend(fields[..k], f);
      out, cur, pos := PutValue(Pack(fields[..k + 1]), out, cur, pos, value.value, f.width, 0);
    }
    assert fields[..|fields|] == fields;
    if pos != 0 {
      EndBalanced(Pack(fields), out, cur, pos);
      out := out + [cur];
    } else {
      EndEmpty(Pack(fields), out, cur);
    }
    LeOfFromLe(out);
    return Success(out);
  }

  lemma StartBalanced()
    ensures Balanced(Pack([]), [], 0, 0, 0)
  {
  }

  lemma EndBalanced(total: int, out: seq<byte>, cur: byte, pos: nat)
    requires Balanced(total, out, cur, pos, 0)
    ensures FromLe(out + [cur]) == total
  {
    HeldFlush(out, cur);
  }

  lemma EndEmpty(total: int, out: seq<byte>, cur: byte)
    requires Balanced(total, out, cur, 0, 0)
    ensures FromLe(out) == total
  {
  }

  /** The loop over the bytes of one value. */
  method PutValue(ghost total: int, out: seq<byte>, cur: byte, pos: nat, value: seq<byte>, width: nat, ghost rest: nat)
    returns (out': seq<byte>, cur': byte, pos': nat)
    requires pos < 8 && |value| == (width + 7) / 8 && Balanced(total, out, cur, pos, Tail(FromLe(value), width, rest))
    ensures pos' < 8 && Balanced(total, out', cur', pos', rest)
    ensures 8 * |out'| + pos' == 8 * |out| + pos + width
  {
    hide Pow2, LowBits, Held, Tail, Balanced;
    out', cur', pos' := out, cur, pos;
    var w := width;
    assert value[0..] == value;
    for j := 0 to |value|
      invariant pos' < 8 && |value| - j == (w + 7) / 8
      invariant Balanced(total, out', cur', pos', Tail(FromLe(value[j..]), w, rest))
      invariant 8 * |out'| + pos' + w == 8 * |out| + pos + width
    {
      var r := if w < 8 then w else 8;
      ByteByByte(value[j..], w, rest);
      assert value[j..][0] == value[j] && value[j..][1..] == value[j + 1..];
      ghost var more := Tail(FromLe(value[j + 1..]), w - r, rest);
      if w < 8 {
        NoBits(FromLe(value[j + 1..]), rest);
      }
      out', cur', pos' := PutByte(total, out', cur', pos', value[j], r, more);
      w := w - r;
    }
    NoBits(FromLe(value[|value|..]), rest);
  }

  // ---------------------------------------------------------------------- the decoder

  lemma LowBitsIgnoresHigh(x: nat, n: nat, high: nat)
    ensures x + Pow2(n) * high >= 0 && LowBits(x + Pow2(n) * high, n) == LowBits(x, n)
  {
    SplitBits(x, n);
    MulNat(Pow2(n), high);
    assert Pow2(n) * (Shr(x, n) + high) == Pow2(n) * Shr(x, n) + Pow2(n) * high;
    SplitUnique(x + Pow2(n) * high, n, LowBits(x, n), Shr(x, n) + high);
  }

  /** Dropping whole low bytes. */
  lemma ShrBytes(data: seq<byte>, j: nat)
    requires j <= |data|
    ensures Shr(FromLe(data), 8 * j) == FromLe(data[j..])
  {
    FromLeConcat(data[..j], data[j..]);
    assert data == data[..j] + data[j..];
    FromLeBound(data[..j]);
    Pow256IsPow2(j);
    SplitUnique(FromLe(data), 8 * j, FromLe(data[..j]), FromLe(data[j..]));
  }

  lemma CancelPow(s: nat, a: int, b: int)
    requires Pow2(s) * a == Pow2(s) * b
    ensures a == b
  {
    var p := Pow2(s);
    assert p * (b - a) == p * b - p * a && p * (a - b) == p * a - p * b;
    if a < b { MulLess(0, b - a, p); }
    if b < a { MulLess(0, a - b, p); }
  }

  lemma LowByte(b: byte, rest: nat, m: nat)
    requires m <= 8
    ensures LowBits(b + 256 * rest, m) == LowBits(b, m)
  {
    Pow2Add(m, 8 - m);
    assert Pow2(8) == 256;
    assert 256 * rest == Pow2(m) * (Pow2(8 - m) * rest) by { Regroup(Pow2(m), Pow2(8 - m), 0, rest); }
    MulNat(Pow2(8 - m), rest);
    LowBitsIgnoresHigh(b, m, Pow2(8 - m) * rest);
  }

  lemma SameLowBits(x: nat, b: byte, rest: nat, s: nat, n: nat)
    requires x == b + 256 * rest && s + n <= 8
    ensures LowBits(Shr(x, s), n) == LowBits(Shr(b, s), n)
  {
    hide Pow2, LowBits, Shr;
    LowByte(b, rest, s);
    LowByte(b, rest, s + n);
    LowBitsAdd(x, s, n);
    LowBitsAdd(b, s, n);
    CancelPow(s, LowBits(Shr(x, s), n), LowBits(Shr(b, s), n));
  }

  /** Bits that lie within one byte can be read from that byte. */
  lemma ByteBits(data: seq<byte>, pos: nat, n: nat)
    requires pos / 8 < |data| && pos % 8 + n <= 8
    ensures LowBits(Shr(data[pos / 8], pos % 8), n) == LowBits(Shr(FromLe(data), pos), n)
  {
    hide Pow2, LowBits, Shr;
    var j, s := pos / 8, pos % 8;
    assert data[j..][1..] == data[j + 1..];
    ShrBytes(data, j);
    LowBitsAdd(FromLe(data), 8 * j, s);
    SameLowBits(FromLe(data[j..]), data[j], FromLe(data[j + 1..]), s, n);
  }

  /** The bits collected so far: the low d bits of x, in whole bytes and a byte under construction. */
  ghost predicate Collected(x: nat, done: seq<byte>, cur: int, pos: nat) {
    0 <= cur < Pow2(pos) && Held(done, cur) == LowBits(x, 8 * |done| + pos)
  }

  lemma Collect(data: seq<byte>, start: nat, done: seq<byte>, cur: int, pos: nat, n: nat)
    requires Collected(Shr(FromLe(data), start), done, cur, pos)
    requires var at := start + 8 * |done| + pos; at / 8 < |data| && at % 8 + n <= 8
    ensures var at := start + 8 * |done| + pos;
            Collected(Shr(FromLe(data), start), done, cur + Pow2(pos) * LowBits(Shr(data[at / 8], at % 8), n), pos + n)
  {
    hide Pow2, LowBits, Shr, Held, FromLe;
    var d := 8 * |done| + pos;
    var x := Shr(FromLe(data), start);
    ByteBits(data, start + d, n);
    LowBitsAdd(FromLe(data), start, d);
    LowBitsAdd(x, d, n);
    var piece := LowBits(Shr(FromLe(data), start + d), n);
    HeldPut(done, cur, pos, piece);
    PutBelow(cur, pos, piece, n);
  }

  lemma CollectFlush(x: nat, done: seq<byte>, cur: byte)
    requires Collected(x, done, cur, 8)
    ensures Collected(x, done + [cur], 0, 0)
  {
    HeldFlush(done, cur);
  }

  /** The inner loop of the decoder: one value of `width` bits starting at bit `start`. */
  method GetValue(data: seq<byte>, start: nat, width: nat) returns (v: nat)
    requires start + width <= 8 * |data|
    ensures v == LowBits(Shr(FromLe(data), start), width)
  {
    CollectStart(Shr(FromLe(data), start));
    hide Pow2, LowBits, Shr, Held, Collected;
    var decoded: seq<byte>, cur: byte, bytePos: nat := [], 0, 0;
    var left: nat, pos := width, start;
    while left != 0
      invariant bytePos < 8 && 8 * |decoded| + bytePos + left == width && pos + left == start + width
      invariant Collected(Shr(FromLe(data), start), decoded, cur, bytePos)
    {
      var n := Least(left, 8 - pos % 8, 8 - bytePos);
      Collect(data, start, decoded, cur, bytePos, n);
      var c := cur + Pow2(bytePos) * LowBits(Shr(data[pos / 8], pos % 8), n);
      left, pos, bytePos := left - n, pos + n, bytePos + n;
      CollectedByte(Shr(FromLe(data), start), decoded, c, bytePos);
      cur := c;
      if bytePos == 8 {
        CollectFlush(Shr(FromLe(data), start), decoded, cur);
        decoded, cur, bytePos := decoded + [cur], 0, 0;
      }
    }
    CollectEnd(Shr(FromLe(data), start), decoded, cur, bytePos);
    if bytePos != 0 {
      decoded := decoded + [cur];
    }
    v := FromLe(decoded);
  }

  function Least(a: int, b: int, c: int): int {
    if a <= b && a <= c then a else if b <= c then b else c
  }

  lemma CollectStart(x: nat)
    ensures Collected(x, [], 0, 0)
  {
  }

  lemma CollectedByte(x: nat, done: seq<byte>, cur: int, pos: nat)
    requires Collected(x, done, cur, pos) && pos <= 8
    ensures 0 <= cur < 256
  {
    PowMono(pos, 8);
    Pow2Eight();
  }

  lemma CollectEnd(x: nat, done: seq<byte>, cur: byte, pos: nat)
    requires Collected(x, done, cur, pos)
    ensures FromLe(if pos != 0 then done + [cur] else done) == LowBits(x, 8 * |done| + pos)
  {
    HeldFlush(done, cur);
  }

  /** `decode_from_bytes`: every named field, or an error when there are too few bytes. */
  method DecodeFromBytes(data: seq<byte>, slots: seq<Slot>) returns (r: Result<seq<Option<nat>>>)
    ensures r == Decode(data, slots)
  {
    if |data| < (SlotBits(slots) + 7) / 8 {
      return Failure(ValueError);
    }
    hide Pow2, LowBits, FromLe;
    var pos: nat, values: seq<Option<nat>> := 0, [];
    assert slots[0..] == slots && Shr(FromLe(data), 0) == FromLe(data);
    for k := 0 to |slots|
      invariant pos + SlotBits(slots[k..]) == SlotBits(slots)
      invariant Unpack(FromLe(data), slots) == values + Unpack(Shr(FromLe(data), pos), slots[k..])
    {
      var s := slots[k];
      assert slots[k..][0] == s && slots[k..][1..] == slots[k + 1..];
      LowBitsAdd(FromLe(data), pos, s.width);
      if s.named {
        var v := GetValue(data, pos, s.width);
        values := values + [Some(v)];
      } else {
        values := values + [None];
      }
      pos := pos + s.width;
    }
    assert values + [] == values;
    return Success(values);
  }

  // ---------------------------------------------------------------------- round trip

  predicate SameWidths(fields: seq<Field>, slots: seq<Slot>) {
    |fields| == |slots| && forall i | 0 <= i < |fields| :: fields[i].width == slots[i].width
  }

  /** The named values, cut to their widths. */
  function Values(fields: seq<Field>, slots: seq<Slot>): seq<Option<nat>>
    requires SameWidths(fields, slots) && AllFitBytes(fields)
  {
    seq(|fields|, i requires 0 <= i < |fields| =>
          if slots[i].named then Some(LowBits(fields[i].value, fields[i].width)) else None)
  }

  /** The packed number with more bits above it. */
  function Below(fields: seq<Field>, high: nat): (n: nat)
    requires AllFitBytes(fields)
  {
    MulNat(Pow2(TotalBits(fields)), high);
    Pack(fields) + Pow2(TotalBits(fields)) * high
  }

  lemma BelowCons(fields: seq<Field>, high: nat)
    requires fields != [] && AllFitBytes(fields)
    ensures AllFitBytes(fields[1..]) && 0 <= fields[0].value
    ensures Below(fields, high) == Tail(fields[0].value, fields[0].width, Below(fields[1..], high))
  {
    assert FitsBytes(fields[0]);
    TailPlus(fields[0].value, fields[0].width, Pack(fields[1..]), TotalBits(fields[1..]), high);
    hide Pow2, LowBits, Pow256, Tail;
  }

  lemma {:induction false} UnpackBelow(fields: seq<Field>, slots: seq<Slot>, high: nat)
    requires SameWidths(fields, slots) && AllFitBytes(fields)
    ensures Unpack(Below(fields, high), slots) == Values(fields, slots)
  {
    if fields == [] {
      assert slots == [];
    } else {
      hide Pow2, LowBits, Pow256, Shr, Unpack, Values, Tail, Below, Pack;
      BelowCons(fields, high);
      ValuesCons(fields, slots);
      UnpackBelow(fields[1..], slots[1..], high);
      UnpackTail(fields[0], Below(fields[1..], high), slots);
    }
  }

  lemma UnpackPack(fields: seq<Field>, slots: seq<Slot>, high: nat)
    requires SameWidths(fields, slots) && AllFitBytes(fields)
    ensures Pack(fields) + Pow2(TotalBits(fields)) * high >= 0
    ensures Unpack(Pack(fields) + Pow2(TotalBits(fields)) * high, slots) == Values(fields, slots)
  {
    UnpackBelow(fields, slots, high);
    hide Unpack, Values, Pack, Pow2, TotalBits;
  }

  lemma UnpackTail(f: Field, up: nat, slots: seq<Slot>)
    requires slots != [] && f.width == slots[0].width && 0 <= f.value
    ensures Unpack(Tail(f.value, f.width, up), slots)
            == [if slots[0].named then Some(LowBits(f.value, f.width)) else None] + Unpack(up, slots[1..])
  {
    SplitUnique(Tail(f.value, f.width, up), f.width, LowBits(f.value, f.width), up);
    hide Pow2, LowBits, Shr, Tail;
  }

  lemma ValuesCons(fields: seq<Field>, slots: seq<Slot>)
    requires fields != [] && SameWidths(fields, slots) && AllFitBytes(fields)
    ensures SameWidths(fields[1..], slots[1..]) && AllFitBytes(fields[1..]) && FitsBytes(fields[0])
    ensures Values(fields, slots)
            == [if slots[0].named then Some(LowBits(fields[0].value, fields[0].width)) else None]
              + Values(fields[1..], slots[1..])
  {
    hide LowBits, Pow256;
  }

  lemma {:induction false} SameBits(fields: seq<Field>, slots: seq<Slot>)
    requires SameWidths(fields, slots)
    ensures TotalBits(fields) == SlotBits(slots)
  {
    if fields != [] {
      SameBits(fields[1..], slots[1..]);
    }
  }

  /** What encodes is recovered field by field, cut to the widths, whatever bytes follow. */
  lemma RoundTrip(fields: seq<Field>, slots: seq<Slot>, suffix: seq<byte>)
    requires SameWidths(fields, slots) && AllFitBytes(fields)
    ensures Encode(fields).Success?
    ensures Decode(Encode(fields).value + suffix, slots) == Success(Values(fields, slots))
  {
    hide LowBits, Values, Unpack;
    SameBits(fields, slots);
    PackBound(fields);
    var n := (TotalBits(fields) + 7) / 8;
    var t := TotalBits(fields);
    Pow256IsPow2(n);
    PowMono(t, 8 * n);
    FromLeOfLe(Pack(fields), n);
    FromLeConcat(Encode(fields).value, suffix);
    Pow2Add(t, 8 * n - t);
    var high := Pow2(8 * n - t) * FromLe(suffix);
    MulNat(Pow2(8 * n - t), FromLe(suffix));
    Regroup(Pow2(t), Pow2(8 * n - t), 0, FromLe(suffix));
    UnpackPack(fields, slots, high);
  }

  /** A value keeps its meaning exactly when it lies within its width. */
  lemma CutExactly(x: nat, n: nat)
    ensures LowBits(x, n) == x <==> x < Pow2(n)
  {
    if x < Pow2(n) {
      SplitUnique(x, n, x, 0);
    }
  }

  /** A value within its width fits its bytes. */
  lemma WithinWidthFits(f: Field)
    requires 0 <= f.value < Pow2(f.width)
    ensures FitsBytes(f)
  {
    PowMono(f.width, 8 * ((f.width + 7) / 8));
    Pow256IsPow2((f.width + 7) / 8);
  }

  /** Fields within their widths always encode, and come back unchanged. */
  lemma ExactRoundTrip(fields: seq<Field>, slots: seq<Slot>, suffix: seq<byte>)
    requires SameWidths(fields, slots)
    requires forall i | 0 <= i < |fields| :: 0 <= fields[i].value < Pow2(fields[i].width)
    ensures Encode(fields).Success?
    ensures Decode(Encode(fields).value + suffix, slots)
            == Success(seq(|fields|, i requires 0 <= i < |fields| =>
                             if slots[i].named then Some(fields[i].value) else None))
  {
    forall i | 0 <= i < |fields|
      ensures FitsBytes(fields[i]) && LowBits(fields[i].value, fields[i].width) == fields[i].value
    {
      WithinWidthFits(fields[i]);
      CutExactly(fields[i].value, fields[i].width);
    }
    hide LowBits, Pow256;
    RoundTrip(fields, slots, suffix);
    assert Values(fields, slots)
           == seq(|fields|, i requires 0 <= i < |fields| => if slots[i].named then Some(fields[i].value) else None);
  }

  // ---------------------------------------------------------------------- which octets, which bits

  lemma SlotBitsCons(slots: seq<Slot>, i: nat)
    requires 0 < i <= |slots|
    ensures SlotBits(slots[..i]) == slots[0].width + SlotBits(slots[1..][..i - 1])
  {
    assert slots[..i][1..] == slots[1..][..i - 1];
  }

  /** A named field is the bits of the number from the widths before it on, and a nameless one is none. */
  lemma {:induction false} UnpackAt(n: nat, slots: seq<Slot>, i: nat)
    requires i < |slots|
    ensures Unpack(n, slots)[i] ==
            if slots[i].named then Some(n / Pow2(SlotBits(slots[..i])) % Pow2(slots[i].width)) else None
    decreases i
  {
    hide Pow2, LowBits, Shr;
    if i == 0 {
      assert SlotBits(slots[..0]) == 0;
      LowBitsIsMod(n, slots[0].width);
      LowBitsIsMod(n, 0);
      assert Shr(n, 0) == n by { ShrNone(n); }
    } else {
      var w, t := slots[0].width, SlotBits(slots[1..][..i - 1]);
      UnpackAt(Shr(n, w), slots[1..], i - 1);
      SlotBitsCons(slots, i);
      LowBitsAdd(n, w, t);
      LowBitsIsMod(Shr(n, w), t);
      LowBitsIsMod(n, w + t);
    }
  }

  lemma ShrNone(n: nat)
    ensures Shr(n, 0) == n
  {
  }

  /** Decoding fails exactly when the octets hold fewer bits than the slots. */
  lemma DecodesIff(data: seq<byte>, slots: seq<Slot>)
    ensures Decode(data, slots).Failure? <==> 8 * |data| < SlotBits(slots)
    ensures Decode(data, slots) == Failure(ValueError) || Decode(data, slots) == Success(Unpack(FromLe(data), slots))
  {
    hide FromLe, Unpack;
  }

  /** k octets are the fewest that hold the width. */
  predicate WholeOctets(width: nat, k: nat) {
    width <= 8 * k < width + 8
  }

  /** The value fits the whole octets of its width. */
  ghost predicate FitsOctets(f: Field) {
    forall k: nat | WholeOctets(f.width, k) :: 0 <= f.value < Pow2(8 * k)
  }

  /** Encoding fails exactly when some value is negative or too large for the whole octets of its width. */
  lemma EncodesIff(fields: seq<Field>)
    ensures Encode(fields).Success? <==> forall i | 0 <= i < |fields| :: FitsOctets(fields[i])
    ensures Encode(fields).Success? ==> WholeOctets(TotalBits(fields), |Encode(fields).value|)
    ensures Encode(fields).Failure? ==> Encode(fields).error == OverflowError
  {
    hide Pow2, Pow256, Pack, Le, TotalBits;
    forall i | 0 <= i < |fields| ensures FitsBytes(fields[i]) <==> FitsOctets(fields[i]) {
      var w := (fields[i].width + 7) / 8;
      Pow256IsPow2(w);
      assert WholeOctets(fields[i].width, w) && forall k: nat | WholeOctets(fields[i].width, k) :: k == w;
    }
    hide FitsBytes, FitsOctets;
  }

  /** A field below the others: its value, cut to its width, and p times what is above it. */
  lemma PackCons(f: Field, rest: seq<Field>, p: int)
    requires AllFitBytes([f] + rest) && p == Pow2(f.width)
    ensures AllFitBytes(rest) && f.value >= 0
    ensures Pack([f] + rest) == f.value % p + p * Pack(rest)
  {
    var fields := [f] + rest;
    assert fields[0] == f && fields[1..] == rest && FitsBytes(fields[0]);
    assert forall i | 0 <= i < |rest| :: rest[i] == fields[i + 1];
    hide LowBits, Pow2, FitsBytes;
    LowBitsIsMod(f.value, f.width);
  }

  lemma PackNone()
    ensures Pack([]) == 0
  {
  }

  /** The bit count of four and of five fields. */
  lemma TotalBitsOf(fields: seq<Field>)
    requires 4 <= |fields| <= 5
    ensures TotalBits(fields) == fields[0].width + fields[1].width + fields[2].width + fields[3].width
                                 + if |fields| == 5 then fields[4].width else 0
  {
    var a := fields[1..];
    var b := a[1..];
    var c := b[1..];
    var d := c[1..];
    assert a[0] == fields[1] && b[0] == fields[2] && c[0] == fields[3];
    assert TotalBits(fields) == fields[0].width + TotalBits(a);
    assert TotalBits(a) == fields[1].width + TotalBits(b);
    assert TotalBits(b) == fields[2].width + TotalBits(c);
    assert TotalBits(c) == fields[3].width + TotalBits(d);
    if |fields| == 5 {
      assert d[0] == fields[4] && d[1..] == [];
      assert TotalBits(d) == fields[4].width + TotalBits(d[1..]) && TotalBits(d[1..]) == 0;
    }
  }
}
