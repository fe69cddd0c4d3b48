/**
 SPAKE2+ (RFC 9383, section 3.3), its transcript and key derivation (matter/crypto/__init__.py). Points are
 the integers modulo the group order; hashes, point encodings and the password hash are parameters.
 */
module Pake {
  import opened Wrappers
  import opened Bytes

  // ---------------------------------------------------------------------- the group

  /** The primitives; scalar multiplication and addition are those of the integers modulo `order`. */
  datatype Suite = Suite(
    order: int, cofactor: int, generator: int, pointM: int, pointN: int,
    encode: int -> Result<seq<byte>>, decode: seq<byte> -> Result<int>,
    hash: seq<byte> -> seq<byte>, hmac: (seq<byte>, seq<byte>) -> seq<byte>,
    stretch: (int, int) -> (nat, nat))

  /**
   Decoding inverts encoding where there is one, which the neutral point need not have, and a hash and an HMAC have
   32 octets.
   */
  ghost predicate Sound(c: Suite) {
    && c.order > 0
    && (forall p | 0 <= p < c.order && c.encode(p).Success? :: c.decode(c.encode(p).value) == Success(p))
    && (forall k, m :: |c.hmac(k, m)| == HASH_LENGTH)
    && (forall m :: |c.hash(m)| == HASH_LENGTH)
  }

  const HASH_LENGTH := 32

  function Times(c: Suite, n: int, p: int): int
    requires c.order > 0
  {
    (n * p) % c.order
  }

  function Plus(c: Suite, p: int, q: int): int
    requires c.order > 0
  {
    (p + q) % c.order
  }

  function Negate(c: Suite, p: int): int
    requires c.order > 0
  {
    (-p) % c.order
  }

  lemma ModOf(a: int, k: int, m: int)
    requires m > 0
    ensures (a + k * m) % m == a % m
  {
    var q, r := a / m, a % m;
    assert a + k * m == r + (q + k) * m by { assert (q + k) * m == q * m + k * m; }
    QuotientUnique(r, q + k, m);
  }

  lemma QuotientUnique(r: int, q: int, m: int)
    requires m > 0 && 0 <= r < m
    ensures (r + q * m) % m == r
  {
    var x := r + q * m;
    var d := x / m - q;
    assert x == (x / m) * m + x % m;
    assert d * m == r - x % m by { assert (x / m - q) * m == (x / m) * m - q * m; }
    if d >= 1 { SmallProduct(d, m); } else if d <= -1 { assert (-d) * m == -(d * m); SmallProduct(-d, m); }
  }

  lemma SmallProduct(d: int, m: int)
    requires d >= 1 && m > 0
    ensures d * m >= m
  {
    assert (d - 1) * m >= 0;
    assert d * m == (d - 1) * m + m;
  }

  /** Reducing before adding or multiplying changes nothing. */
  lemma ModPlus(a: int, b: int, m: int)
    requires m > 0
    ensures (a % m + b) % m == (a + b) % m
  {
    ModOf(a % m + b, a / m, m);
    assert a + b == a % m + b + (a / m) * m;
  }

  lemma ModTimes(n: int, a: int, m: int)
    requires m > 0
    ensures (n * (a % m)) % m == (n * a) % m
  {
    ModOf(n * (a % m), n * (a / m), m);
    assert a == a % m + m * (a / m);
    Distribute(n, a % m, m, a / m);
  }

  lemma Distribute(n: int, r: int, m: int, q: int)
    ensures n * (r + m * q) == n * r + (n * q) * m
  {
    assert n * (r + m * q) == n * r + n * (m * q);
    assert n * (m * q) == (n * q) * m by { assert m * q == q * m; assert n * (q * m) == (n * q) * m; }
  }

  lemma SmallMod(p: int, m: int)
    requires 0 <= p < m
    ensures p % m == p
  {
  }

  function Mod(a: int, m: int): int
    requires m > 0
  {
    a % m
  }

  lemma ModSum(a: int, b: int, m: int)
    requires m > 0
    ensures Mod(Mod(a, m) + b, m) == Mod(a + b, m)
  {
    ModPlus(a, b, m);
  }

  lemma TakeAway(p: int, mask: int, m: int)
    requires m > 0
    ensures Mod(Mod(p + mask, m) + Mod(-mask, m), m) == Mod(p, m)
  {
    hide Mod;
    var x := Mod(-mask, m);
    ModSum(p + mask, x, m);
    ModSum(-mask, p + mask, m);
    assert p + mask + x == x + (p + mask) && -mask + (p + mask) == p;
  }

  /** Taking a masking point away again. */
  lemma Unmask(c: Suite, p: int, mask: int)
    requires c.order > 0 && 0 <= p < c.order
    ensures Plus(c, Plus(c, p, mask), Negate(c, mask)) == p
  {
    TakeAway(p, mask, c.order);
    SmallMod(p, c.order);
  }

  lemma TimesTimes(c: Suite, a: int, b: int, p: int)
    requires c.order > 0
    ensures Times(c, a, Times(c, b, p)) == (a * (b * p)) % c.order
  {
    ModTimes(a, b * p, c.order);
  }

  // ---------------------------------------------------------------------- the two sides

  datatype Initiator = Initiator(w0: int, w1: int)

  datatype Responder = Responder(w0: int, l: int)

  datatype Shared = Shared(z: int, v: int)

  function GenerateInitiator(c: Suite, passcode: int, params: int): Initiator
    requires c.order > 0
  {
    var (w0s, w1s) := c.stretch(passcode, params);
    Initiator(w0s % c.order, w1s % c.order)
  }

  function GenerateResponder(c: Suite, passcode: int, params: int): Responder
    requires c.order > 0
  {
    var v := GenerateInitiator(c, passcode, params);
    Responder(v.w0, Times(c, v.w1, c.generator))
  }

  /** The prover's public share for the scalar x. */
  function ShareA(c: Suite, v: Initiator, x: int): Result<seq<byte>>
    requires c.order > 0
  {
    c.encode(Plus(c, Times(c, x, c.generator), Times(c, v.w0, c.pointM)))
  }

  /** The verifier's public share for the scalar y. */
  function ShareB(c: Suite, v: Responder, y: int): Result<seq<byte>>
    requires c.order > 0
  {
    c.encode(Plus(c, Times(c, y, c.generator), Times(c, v.w0, c.pointN)))
  }

  function ProverShared(c: Suite, v: Initiator, x: int, pb: seq<byte>): Result<Shared>
    requires c.order > 0
  {
    var p :- c.decode(pb);
    var y := Plus(c, p, Negate(c, Times(c, v.w0, c.pointN)));
    Success(Shared(Times(c, c.cofactor * x, y), Times(c, c.cofactor * v.w1, y)))
  }

  function VerifierShared(c: Suite, v: Responder, y: int, pa: seq<byte>): Result<Shared>
    requires c.order > 0
  {
    var p :- c.decode(pa);
    var x := Plus(c, p, Negate(c, Times(c, v.w0, c.pointM)));
    Success(Shared(Times(c, c.cofactor * y, x), Times(c, c.cofactor * y, v.l)))
  }

  lemma Reorder(h: int, x: int, y: int, g: int)
    ensures (h * x) * (y * g) == (h * y) * (x * g)
  {
    assert (h * x) * (y * g) == ((h * x) * y) * g;
    assert (h * y) * (x * g) == ((h * y) * x) * g;
    assert (h * x) * y == h * (x * y) && (h * y) * x == h * (y * x);
  }

  /** Both sides compute the same Z and V from the same passcode, for all scalars whose shares can be sent. */
  lemma SharedAgree(c: Suite, passcode: int, params: int, x: int, y: int)
    requires Sound(c)
    ensures var a := GenerateInitiator(c, passcode, params);
            var b := GenerateResponder(c, passcode, params);
            var (pa, pb) := (ShareA(c, a, x), ShareB(c, b, y));
            pa.Success? && pb.Success? ==>
              ProverShared(c, a, x, pb.value).Success?
              && ProverShared(c, a, x, pb.value) == VerifierShared(c, b, y, pa.value)
  {
    var a := GenerateInitiator(c, passcode, params);
    var b := GenerateResponder(c, passcode, params);
    var gx, gy := Times(c, x, c.generator), Times(c, y, c.generator);
    Unmask(c, gx, Times(c, a.w0, c.pointM));
    Unmask(c, gy, Times(c, b.w0, c.pointN));
    TimesTimes(c, c.cofactor * x, y, c.generator);
    TimesTimes(c, c.cofactor * y, x, c.generator);
    TimesTimes(c, c.cofactor * a.w1, y, c.generator);
    TimesTimes(c, c.cofactor * y, a.w1, c.generator);
    Reorder(c.cofactor, x, y, c.generator);
    Reorder(c.cofactor, a.w1, y, c.generator);
    InGroup(c, gx, Times(c, a.w0, c.pointM));
    InGroup(c, gy, Times(c, b.w0, c.pointN));
    hide Times, Plus, Negate;
  }

  lemma InGroup(c: Suite, p: int, q: int)
    requires Sound(c)
    ensures var e := c.encode(Plus(c, p, q)); e.Success? ==> c.decode(e.value) == Success(Plus(c, p, q))
  {
  }

  // ---------------------------------------------------------------------- the transcript

  /** Each element after its length in eight octets. */
  function Prefixed(elements: seq<seq<byte>>): Result<seq<byte>> {
    if elements == [] then Success([])
    else
      var n :- ToBytes(|elements[0]|, 8);
      var rest :- Prefixed(elements[1..]);
      Success(n + elements[0] + rest)
  }

  method EncodeElements(elements: seq<seq<byte>>) returns (r: Result<seq<byte>>)
    ensures r == Prefixed(elements)
  {
    hide Le, Pow256;
    var tt: seq<byte> := [];
    AppendedTwice([], [], Prefixed(elements));
    assert elements[0..] == elements;
    for i := 0 to |elements|
      invariant Prefixed(elements) == Appended(tt, Prefixed(elements[i..]))
    {
      var element := elements[i];
      assert elements[i..][1..] == elements[i + 1..];
      var n :- ToBytes(|element|, 8);
      AppendedTwice(tt, n + element, Prefixed(elements[i + 1..]));
      assert tt + (n + element) == tt + n + element;
      assert Prefixed(elements[i..]) == Appended(n + element, Prefixed(elements[i + 1..]));
      tt := tt + n;
      tt := tt + element;
    }
    AppendedTwice(tt, [], Success([]));
    return Success(tt);
  }

  lemma FirstParts(l: seq<byte>, e: seq<byte>, rest: seq<byte>, m: seq<byte>, f: seq<byte>, other: seq<byte>)
    requires |l| == |m| && (l == m ==> |e| == |f|) && l + (e + rest) == m + (f + other)
    ensures e == f && rest == other
  {
    SameParts(l, e + rest, m, f + other);
    SameParts(e, rest, f, other);
  }

  lemma SameParts(a: seq<byte>, b: seq<byte>, a': seq<byte>, b': seq<byte>)
    requires |a| == |a'| && a + b == a' + b'
    ensures a == a' && b == b'
  {
    assert a == (a + b)[..|a|] && b == (a + b)[|a|..];
    assert a' == (a' + b')[..|a'|] && b' == (a' + b')[|a'|..];
  }

  /** The transcript determines its elements, however many there are. */
  lemma {:induction false} PrefixedInjective(a: seq<seq<byte>>, b: seq<seq<byte>>)
    requires Prefixed(a).Success? && Prefixed(a) == Prefixed(b)
    ensures a == b
  {
    hide Le, Pow256;
    if a != [] && b != [] {
      FromLeOfLe(|a[0]|, 8);
      FromLeOfLe(|b[0]|, 8);
      hide FromLe;
      var l, m, rest, other := Le(|a[0]|, 8), Le(|b[0]|, 8), Prefixed(a[1..]).value, Prefixed(b[1..]).value;
      assert l + a[0] + rest == l + (a[0] + rest) && m + b[0] + other == m + (b[0] + other);
      FirstParts(l, a[0], rest, m, b[0], other);
      PrefixedInjective(a[1..], b[1..]);
      assert a == [a[0]] + a[1..] && b == [b[0]] + b[1..];
    }
  }

  /** A transcript exists exactly when every length fits eight octets. */
  lemma {:induction false} PrefixedSucceedsIff(a: seq<seq<byte>>)
    ensures Prefixed(a).Success? <==> forall i :: 0 <= i < |a| ==> |a[i]| < Pow256(8)
  {
    hide Le, Pow256;
    if a != [] { PrefixedSucceedsIff(a[1..]); }
  }

  /** The 32 octets of w0, most significant first. */
  function BigEndian(n: nat, k: nat): (b: seq<byte>)
    ensures |b| == k
  {
    if k == 0 then [] else BigEndian(n / 256, k - 1) + [n % 256]
  }

  lemma {:induction false} BigEndianInjective(a: nat, b: nat, k: nat)
    requires a < Pow256(k) && b < Pow256(k) && BigEndian(a, k) == BigEndian(b, k)
    ensures a == b
  {
    if k > 0 {
      assert BigEndian(a, k)[..k - 1] == BigEndian(a / 256, k - 1)
             && BigEndian(b, k)[..k - 1] == BigEndian(b / 256, k - 1);
      assert BigEndian(a, k)[k - 1] == a % 256 && BigEndian(b, k)[k - 1] == b % 256;
      BigEndianInjective(a / 256, b / 256, k - 1);
    }
  }

  function Elements(c: Suite, w0: nat, request: seq<byte>, response: seq<byte>, context: seq<byte>, pa: seq<byte>,
                    pb: seq<byte>, s: Shared)
    : Result<seq<seq<byte>>>
  {
    var m :- c.encode(c.pointM);
    var n :- c.encode(c.pointN);
    var z :- c.encode(s.z);
    var v :- c.encode(s.v);
    Success([c.hash(context + request + response), [], [], m, n, pa, pb, z, v, BigEndian(w0, 32)])
  }

  function Transcript(c: Suite, w0: nat, request: seq<byte>, response: seq<byte>, context: seq<byte>, pa: seq<byte>,
                      pb: seq<byte>, s: Shared)
    : Result<seq<byte>>
  {
    var elements :- Elements(c, w0, request, response, context, pa, pb, s);
    Prefixed(elements)
  }

  // ---------------------------------------------------------------------- key derivation

  /** Block i of the expansion (section 2.3 of RFC 5869). */
  function Block(c: Suite, prk: seq<byte>, info: seq<byte>, i: nat): seq<byte> {
    if i == 0 then [] else c.hmac(prk, Block(c, prk, info, i - 1) + info + [i % 256])
  }

  function Blocks(c: Suite, prk: seq<byte>, info: seq<byte>, n: nat): seq<byte> {
    if n == 0 then [] else Blocks(c, prk, info, n - 1) + Block(c, prk, info, n)
  }

  /** The number of blocks for a length. */
  function Count(length: nat): nat {
    (length + HASH_LENGTH - 1) / HASH_LENGTH
  }

  /** The block number is packed as a signed octet, so there are at most 127 blocks. */
  method HkdfExpand(c: Suite, prk: seq<byte>, info: seq<byte>, length: nat) returns (r: Result<seq<byte>>)
    ensures r == if length <= 127 * HASH_LENGTH then Success(Blocks(c, prk, info, Count(length)))
            else Failure(StructError)
  {
    var lastHash: seq<byte> := [];
    var out: seq<byte> := [];
    var generated := 0;
    var i := 1;
    while generated < length
      invariant 1 <= i <= 128 && generated == (i - 1) * HASH_LENGTH && i - 1 <= Count(length)
      invariant lastHash == Block(c, prk, info, i - 1) && out == Blocks(c, prk, info, i - 1)
      decreases length - generated
    {
      generated := generated + HASH_LENGTH;
      if i > 127 {
        return Failure(StructError);
      }
      lastHash := c.hmac(prk, lastHash + info + [i]);
      out := out + lastHash;
      i := i + 1;
    }
    return Success(out);
  }

  function Zeros(n: nat): (z: seq<byte>)
    ensures |z| == n && forall i | 0 <= i < n :: z[i] == 0
  {
    seq(n, i => 0)
  }

  function Kdf(c: Suite, key: seq<byte>, salt: Option<seq<byte>>, info: seq<byte>, length: nat): Result<seq<byte>> {
    var prk := c.hmac(salt.GetOr(Zeros(HASH_LENGTH)), key);
    if length <= 127 * HASH_LENGTH then Success(Take(Blocks(c, prk, info, Count(length)), length))
    else Failure(StructError)
  }

  lemma {:induction false} BlocksLength(c: Suite, prk: seq<byte>, info: seq<byte>, n: nat)
    requires Sound(c)
    ensures |Blocks(c, prk, info, n)| == n * HASH_LENGTH
  {
    if n > 0 { BlocksLength(c, prk, info, n - 1); }
  }

  lemma {:induction false} BlocksPrefix(c: Suite, prk: seq<byte>, info: seq<byte>, m: nat, n: nat)
    requires m <= n
    ensures Blocks(c, prk, info, m) <= Blocks(c, prk, info, n)
    decreases n
  {
    if m < n { BlocksPrefix(c, prk, info, m, n - 1); }
  }

  /** A derived key has the length asked for, and a shorter key is a prefix of a longer one. */
  lemma KdfLengths(c: Suite, key: seq<byte>, salt: Option<seq<byte>>, info: seq<byte>, m: nat, n: nat)
    requires Sound(c) && m <= n <= 127 * HASH_LENGTH
    ensures var a, b := Kdf(c, key, salt, info, m).value, Kdf(c, key, salt, info, n).value;
            |a| == m && |b| == n && a <= b
  {
    var prk := c.hmac(salt.GetOr(Zeros(HASH_LENGTH)), key);
    BlocksLength(c, prk, info, Count(m));
    BlocksLength(c, prk, info, Count(n));
    BlocksPrefix(c, prk, info, Count(m), Count(n));
    hide Blocks, Sound;
  }

  datatype P2 = P2(cA: seq<byte>, cB: seq<byte>, ke: seq<byte>)

  function Confirm(c: Suite, tt: seq<byte>, pa: seq<byte>, pb: seq<byte>): Result<P2> {
    var k := c.hash(tt);
    var kc :- Kdf(c, Take(k, 16), None, CONFIRMATION_KEYS, HASH_LENGTH);
    Success(P2(c.hmac(Take(kc, 16), pb), c.hmac(Take(Drop(kc, 16), 16), pa), Take(Drop(k, 16), 16)))
  }

  /** "ConfirmationKeys" in ASCII. */
  const CONFIRMATION_KEYS: seq<byte> := [67, 111, 110, 102, 105, 114, 109, 97, 116, 105, 111, 110, 75, 101, 121, 115]

  /** What each side derives from its own view of one exchange of messages. */
  function ProverView(c: Suite, passcode: int, params: int, x: int, pb: seq<byte>, request: seq<byte>,
                      response: seq<byte>, context: seq<byte>)
    : Result<P2>
    requires c.order > 0
  {
    var a := GenerateInitiator(c, passcode, params);
    var pa :- ShareA(c, a, x);
    var s :- ProverShared(c, a, x, pb);
    var tt :- Transcript(c, a.w0, request, response, context, pa, pb, s);
    Confirm(c, tt, pa, pb)
  }

  function VerifierView(c: Suite, passcode: int, params: int, y: int, pa: seq<byte>, request: seq<byte>,
                        response: seq<byte>, context: seq<byte>)
    : Result<P2>
    requires c.order > 0
  {
    var b := GenerateResponder(c, passcode, params);
    var pb :- ShareB(c, b, y);
    var s :- VerifierShared(c, b, y, pa);
    var tt :- Transcript(c, b.w0, request, response, context, pa, pb, s);
    Confirm(c, tt, pa, pb)
  }

  /** The constants and the shared points have encodings, and every encoding's length fits eight octets. */
  ghost predicate Encodable(c: Suite, s: Shared) {
    && c.encode(c.pointM).Success? && c.encode(c.pointN).Success?
    && c.encode(s.z).Success? && c.encode(s.v).Success?
    && |c.encode(c.pointM).value| < Pow256(8) && |c.encode(c.pointN).value| < Pow256(8)
    && |c.encode(s.z).value| < Pow256(8) && |c.encode(s.v).value| < Pow256(8)
  }

  lemma TranscriptSucceedsIff(c: Suite, w0: nat, request: seq<byte>, response: seq<byte>, context: seq<byte>,
                              pa: seq<byte>, pb: seq<byte>, s: Shared)
    requires Sound(c)
    ensures Transcript(c, w0, request, response, context, pa, pb, s).Success?
            <==> Encodable(c, s) && |pa| < Pow256(8) && |pb| < Pow256(8)
  {
    hide BigEndian;
    Pow256Values();
    var elements := Elements(c, w0, request, response, context, pa, pb, s);
    if elements.Success? {
      var e := elements.value;
      PrefixedSucceedsIff(e);
      assert |e[0]| == 32 && e[1] == e[2] == [] && |e[9]| == 32;
      hide Prefixed, Pow256;
      assert (forall i :: 0 <= i < |e| ==> |e[i]| < Pow256(8)) <==>
             |e[3]| < Pow256(8) && |e[4]| < Pow256(8) && |e[5]| < Pow256(8) && |e[6]| < Pow256(8) && |e[7]| < Pow256(8)
             && |e[8]| < Pow256(8);
    }
  }

  /**
   With the same passcode both sides, when their shares can be sent, reach the same confirmation values and the same
   key. They reach them exactly when the points of the transcript have encodings and these fit their lengths.
   */
  lemma ViewsAgree(c: Suite, passcode: int, params: int, x: int, y: int,
                   request: seq<byte>, response: seq<byte>, context: seq<byte>)
    requires Sound(c)
    ensures var a := GenerateInitiator(c, passcode, params);
            var (pa, pb) := (ShareA(c, a, x), ShareB(c, GenerateResponder(c, passcode, params), y));
            pa.Success? && pb.Success? ==>
              var view := ProverView(c, passcode, params, x, pb.value, request, response, context);
              var shared := ProverShared(c, a, x, pb.value);
              && view == VerifierView(c, passcode, params, y, pa.value, request, response, context)
              && shared.Success?
              && (view.Success? <==>
                  Encodable(c, shared.value) && |pa.value| < Pow256(8) && |pb.value| < Pow256(8))
  {
    var a := GenerateInitiator(c, passcode, params);
    var pa, pb := ShareA(c, a, x), ShareB(c, GenerateResponder(c, passcode, params), y);
    SharedAgree(c, passcode, params, x, y);
    if pa.Success? && pb.Success? {
      var shared := ProverShared(c, a, x, pb.value).value;
      TranscriptSucceedsIff(c, a.w0, request, response, context, pa.value, pb.value, shared);
    }
    hide ShareA, ShareB, ProverShared, VerifierShared, Transcript, Encodable, Pow256;
  }

  /** Sides whose passwords stretch to different w0, or that saw different messages, hash different transcripts. */
  lemma TranscriptsDiffer(c: Suite, w0: nat, request: seq<byte>, response: seq<byte>, context: seq<byte>, pa: seq<byte>,
                          pb: seq<byte>, s: Shared,
                          w0': nat, request': seq<byte>, response': seq<byte>, pa': seq<byte>, pb': seq<byte>,
                          s': Shared)
    requires w0 < Pow256(32) && w0' < Pow256(32)
    requires Transcript(c, w0, request, response, context, pa, pb, s).Success?
    requires Transcript(c, w0, request, response, context, pa, pb, s)
             == Transcript(c, w0', request', response', context, pa', pb', s')
    ensures w0 == w0' && pa == pa' && pb == pb' && c.encode(s.z) == c.encode(s'.z) && c.encode(s.v) == c.encode(s'.v)
    ensures c.hash(context + request + response) == c.hash(context + request' + response')
  {
    hide Prefixed, BigEndian, Pow256;
    var e, f := Elements(c, w0, request, response, context, pa, pb, s).value,
                Elements(c, w0', request', response', context, pa', pb', s').value;
    PrefixedInjective(e, f);
    assert e[0] == f[0] && e[5] == f[5] && e[6] == f[6] && e[7] == f[7] && e[8] == f[8] && e[9] == f[9];
    BigEndianInjective(w0, w0', 32);
  }
}
