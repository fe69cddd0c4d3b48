/** The values of the PAKE exchange as the formulas of RFC 9383, section 3.3, and of RFC 5869 give them. */
module PakeFormulas {
  import opened Wrappers
  import opened Bytes
  import opened Pake
  import TlvWire

  // ---------------------------------------------------------------------- shares

  /** Two products reduced before they are added. */
  lemma SumOfProducts(c: Suite, a: int, p: int, b: int, q: int)
    requires c.order > 0
    ensures Plus(c, Times(c, a, p), Times(c, b, q)) == (a * p + b * q) % c.order
  {
    ModPlus(a * p, (b * q) % c.order, c.order);
    ModPlus(b * q, a * p, c.order);
  }

  /** The secrets are the two halves of the stretched passcode, reduced. */
  lemma SecretsAre(c: Suite, passcode: int, params: int)
    requires c.order > 0
    ensures var a := GenerateInitiator(c, passcode, params);
            && a.w0 == c.stretch(passcode, params).0 % c.order && a.w1 == c.stretch(passcode, params).1 % c.order
            && GenerateResponder(c, passcode, params) == Responder(a.w0, (a.w1 * c.generator) % c.order)
  {
  }

  /** The prover sends x G + w0 M, the verifier y G + w0 N. */
  lemma SharesAre(c: Suite, passcode: int, params: int, x: int, y: int)
    requires c.order > 0
    ensures var w0 := c.stretch(passcode, params).0 % c.order;
            && ShareA(c, GenerateInitiator(c, passcode, params), x)
               == c.encode((x * c.generator + w0 * c.pointM) % c.order)
            && ShareB(c, GenerateResponder(c, passcode, params), y)
               == c.encode((y * c.generator + w0 * c.pointN) % c.order)
  {
    var w0 := c.stretch(passcode, params).0 % c.order;
    SumOfProducts(c, x, c.generator, w0, c.pointM);
    SumOfProducts(c, y, c.generator, w0, c.pointN);
    hide Plus, Times;
  }

  /** Both sides reach Z = h x y G and V = h w1 y G, h being the cofactor. */
  lemma SharedIs(c: Suite, passcode: int, params: int, x: int, y: int)
    requires Sound(c)
    ensures var a := GenerateInitiator(c, passcode, params);
            var b := GenerateResponder(c, passcode, params);
            var w1 := c.stretch(passcode, params).1 % c.order;
            var (pa, pb) := (ShareA(c, a, x), ShareB(c, b, y));
            pa.Success? && pb.Success? ==>
              var s := Shared((c.cofactor * x) * (y * c.generator) % c.order,
                              (c.cofactor * w1) * (y * c.generator) % c.order);
              ProverShared(c, a, x, pb.value) == Success(s) && VerifierShared(c, b, y, pa.value) == Success(s)
  {
    var a := GenerateInitiator(c, passcode, params);
    var b := GenerateResponder(c, passcode, params);
    var gy := Times(c, y, c.generator);
    SharedAgree(c, passcode, params, x, y);
    Unmask(c, gy, Times(c, b.w0, c.pointN));
    InGroup(c, gy, Times(c, b.w0, c.pointN));
    TimesTimes(c, c.cofactor * x, y, c.generator);
    TimesTimes(c, c.cofactor * a.w1, y, c.generator);
    hide Times, Plus, Negate, Sound;
  }

  // ---------------------------------------------------------------------- the transcript

  /** An element after its length in eight octets, least significant first. */
  function Entry(e: seq<byte>): seq<byte> {
    TlvWire.Eight(|e|) + e
  }

  function EntriesOf(elements: seq<seq<byte>>): seq<byte> {
    if elements == [] then [] else Entry(elements[0]) + EntriesOf(elements[1..])
  }

  lemma {:induction false} PrefixedIs(elements: seq<seq<byte>>)
    requires Prefixed(elements).Success?
    ensures Prefixed(elements).value == EntriesOf(elements)
  {
    if elements != [] {
      PrefixedIs(elements[1..]);
      TlvWire.ToBytesIs(|elements[0]|);
      hide ToBytes, TlvWire.Eight, EntriesOf;
      assert EntriesOf(elements) == Entry(elements[0]) + EntriesOf(elements[1..]) by { EntriesCons(elements); }
    }
  }

  lemma EntriesCons(elements: seq<seq<byte>>)
    requires elements != []
    ensures EntriesOf(elements) == Entry(elements[0]) + EntriesOf(elements[1..])
  {
  }

  /** The octet of a number at place i of k, most significant first. */
  lemma {:induction false} BigEndianAt(n: nat, k: nat, i: nat)
    requires i < k
    ensures BigEndian(n, k)[i] == n / Pow256(k - 1 - i) % 256
  {
    if i < k - 1 {
      BigEndianAt(n / 256, k - 1, i);
      assert BigEndian(n, k)[i] == BigEndian(n / 256, k - 1)[i];
      var p := Pow256(k - 2 - i);
      assert Pow256(k - 1 - i) == 256 * p;
      DivideTwice(n, p);
    }
  }

  lemma DivideTwice(n: nat, p: nat)
    requires p > 0
    ensures n / 256 / p == n / (256 * p)
  {
    var q, r := n / 256 / p, n / 256 % p;
    assert n / 256 == q * p + r;
    assert n == 256 * (n / 256) + n % 256 && 256 * (q * p) == q * (256 * p);
    Quotient(256 * r + n % 256, q, 256 * p);
  }

  lemma Quotient(r: nat, q: nat, m: nat)
    requires r < m
    ensures (r + q * m) / m == q
  {
    var d := (r + q * m) / m - q;
    var x := r + q * m;
    assert x == x / m * m + x % m;
    assert d * m == r - x % m by { assert (x / m - q) * m == x / m * m - q * m; }
    if d >= 1 { SmallProduct(d, m); } else if d <= -1 { assert -d * m == -(d * m); SmallProduct(-d, m); }
  }

  /** The elements of the transcript, in order; the identities of the two sides are empty. */
  lemma TranscriptIs(c: Suite, w0: nat, request: seq<byte>, response: seq<byte>, context: seq<byte>, pa: seq<byte>,
                     pb: seq<byte>, s: Shared)
    requires Transcript(c, w0, request, response, context, pa, pb, s).Success?
    ensures exists m, n, z, v, w ::
              && c.encode(c.pointM) == Success(m) && c.encode(c.pointN) == Success(n)
              && c.encode(s.z) == Success(z) && c.encode(s.v) == Success(v)
              && |w| == 32 && (forall i | 0 <= i < 32 :: w[i] == w0 / Pow256(31 - i) % 256)
              && Transcript(c, w0, request, response, context, pa, pb, s).value
                 == EntriesOf([c.hash(context + request + response), [], [], m, n, pa, pb, z, v, w])
  {
    var m, n := c.encode(c.pointM).value, c.encode(c.pointN).value;
    var z, v := c.encode(s.z).value, c.encode(s.v).value;
    var w := BigEndian(w0, 32);
    forall i: nat | i < 32 ensures w[i] == w0 / Pow256(31 - i) % 256 {
      BigEndianAt(w0, 32, i);
    }
    hide BigEndian, Prefixed, EntriesOf, Pow256;
    PrefixedIs([c.hash(context + request + response), [], [], m, n, pa, pb, z, v, w]);
  }

  // ---------------------------------------------------------------------- derived keys

  /** The extracted key; without a salt it is 32 zeros. */
  function Extracted(c: Suite, key: seq<byte>, salt: Option<seq<byte>>): seq<byte> {
    c.hmac(if salt.Some? then salt.value else Zeros(32), key)
  }

  lemma {:induction false} BlockOf(c: Suite, prk: seq<byte>, info: seq<byte>, n: nat, i: nat)
    requires Sound(c) && i < n
    ensures |Blocks(c, prk, info, n)| == 32 * n
    ensures Blocks(c, prk, info, n)[32 * i..32 * i + 32] == Block(c, prk, info, i + 1)
  {
    BlocksLength(c, prk, info, n);
    BlocksLength(c, prk, info, n - 1);
    var before := Blocks(c, prk, info, n - 1);
    if i < n - 1 {
      BlockOf(c, prk, info, n - 1, i);
      hide Block;
      assert Blocks(c, prk, info, n)[32 * i..32 * i + 32] == before[32 * i..32 * i + 32];
    }
  }

  /** A key of whole blocks exists up to 127 of them. */
  lemma WholeBlocks(c: Suite, key: seq<byte>, salt: Option<seq<byte>>, info: seq<byte>, n: nat)
    requires Sound(c)
    ensures Kdf(c, key, salt, info, 32 * n)
            == if n <= 127 then Success(Blocks(c, Extracted(c, key, salt), info, n)) else Failure(StructError)
  {
    var prk := Extracted(c, key, salt);
    assert salt.GetOr(seq(HASH_LENGTH, i => 0)) == if salt.Some? then salt.value else Zeros(32);
    var b := Blocks(c, prk, info, n);
    BlocksLength(c, prk, info, n);
    hide Blocks, Sound;
    assert Count(32 * n) == n by { hide Kdf; }
    assert b[..32 * n] == b;
  }

  /**
   The blocks of a derived key: the first is the HMAC of the info and 1, each next one of the block before it, the
   info and its number. There is a key exactly up to 4064 octets.
   */
  lemma BlocksChain(c: Suite, key: seq<byte>, salt: Option<seq<byte>>, info: seq<byte>, n: nat, i: nat)
    requires Sound(c) && i < n <= 127
    ensures var prk := Extracted(c, key, salt);
            var k := Kdf(c, key, salt, info, 32 * n);
            && k.Success? && |k.value| == 32 * n
            && k.value[32 * i..32 * i + 32] ==
               c.hmac(prk, (if i == 0 then [] else k.value[32 * i - 32..32 * i]) + info + [i + 1])
  {
    var prk := Extracted(c, key, salt);
    WholeBlocks(c, key, salt, info, n);
    BlockOf(c, prk, info, n, i);
    if i > 0 { BlockOf(c, prk, info, n, i - 1); }
    hide Kdf, Blocks, Sound;
    assert (i + 1) % 256 == i + 1;
  }

  lemma KdfFailsIff(c: Suite, key: seq<byte>, salt: Option<seq<byte>>, info: seq<byte>, length: nat)
    ensures Kdf(c, key, salt, info, length).Failure? <==> length > 4064
  {
  }

  /** The label of the confirmation keys. */
  lemma LabelIs()
    ensures var text := "ConfirmationKeys";
            |CONFIRMATION_KEYS| == |text| && forall i | 0 <= i < |text| :: CONFIRMATION_KEYS[i] == text[i] as int
  {
  }

  /**
   The two halves of the transcript's hash are the confirmation secret and the session secret; the two halves of the
   key derived from the first confirm the verifier's share and the prover's.
   */
  lemma ConfirmIs(c: Suite, tt: seq<byte>, pa: seq<byte>, pb: seq<byte>)
    requires Sound(c)
    ensures var k := c.hash(tt);
            var kc := c.hmac(c.hmac(Zeros(32), k[..16]), CONFIRMATION_KEYS + [1]);
            && |k| == 32 && |kc| == 32
            && Confirm(c, tt, pa, pb) == Success(P2(c.hmac(kc[..16], pb), c.hmac(kc[16..], pa), k[16..]))
  {
    var k := c.hash(tt);
    BlocksChain(c, k[..16], None, CONFIRMATION_KEYS, 1, 0);
    var kc := Kdf(c, k[..16], None, CONFIRMATION_KEYS, 32).value;
    assert |kc| == 32 && kc[0..32] == kc;
    assert [] + CONFIRMATION_KEYS + [1] == CONFIRMATION_KEYS + [1];
    assert Take(k, 16) == k[..16] && Take(Drop(k, 16), 16) == k[16..];
    assert Take(kc, 16) == kc[..16] && Take(Drop(kc, 16), 16) == kc[16..];
    hide Kdf;
  }
}
