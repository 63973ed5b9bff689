/** The group parameters and the commitment scheme of the Pedersen
    verifiable secret sharing package: scheme generation (NewVSS), commit
    (CommitmentTo), verification (Verify) and the shared commitment formula
    g^s * h^r mod p, following T. Pedersen, "Non-interactive and
    information-theoretic secure verifiable secret sharing", Crypto '91.
    Randomness comes from a Rand.Reader; SHA-256 is a parameter. */
module Pedersen {
  import opened Wrappers
  import opened Rand
  import opened BigInt

  /** p, the 4096-bit safe prime fixed at package initialisation. */
  const P: nat := 0xc8526644a9c4739683742b7003640b2023ca42cc018a42b02a551bb825c6828f_86e2e216ea5d31004c433582a3fa720459efb42e091d73fb281810e1825691f0_799811be62ae57f62ab00670edd35426d108d3b9c4fd008eddc67275a0489fe1_32e4c31bd7069ea7884cbb8f8f9255fe7b87fc0099f246776c340912df48f794_5bc2bc0bc6814978d27b7af2ebc41f458ae795186db0fd7e6151bb8a7fe2b413_70f7a2848ef75d3ec88f3439022c10e78b434c2f24b2f40bd02930e6c8aadef8_7b0dc87cdba07dcfa86884a168bd1381a4f48be12e5d98e41f954c37aec011cc_683570e8890418756ed98ace8c8e59ae1df50962c1622fe66b5409f330cad6b7_c68f2e884786d9807190b89ac4a3b3507e49b2dd3f33d765ad29e2015180c8cd_0258dd8bdaab17be5d74871fec04c492240c6a2692b2c9a62c9adbaac34a333f_135801ff948e8dfb6bbd6212a67950fb8edd628d05d19d1b94e9be7c52ed4848_31d50adaa29e71de197e351878f1c40ec67ee809e824124529e27bd5ecf3054f_6784153f7db27ff0c87420bb2b2754ed363fc2ba8399d49d291f342173e76191_83467a9694efa243e1d41b26c13b38ca0f43bb7c9050eb966461f28436583a9d_13d2c1465b78184eae360f009505ccea288a053d111988d55c12befd882a857a_530efac2c0592987cd83c39844a10e058739ab1c39006a3123e7fc887845675f

  /** q, the 4095-bit Sophie Germain prime with p == 2q + 1. */
  const Q: nat := 0x6429332254e239cb41ba15b801b2059011e5216600c52158152a8ddc12e34147_c371710b752e988026219ac151fd39022cf7da17048eb9fd940c0870c12b48f8_3ccc08df31572bfb1558033876e9aa13688469dce27e80476ee3393ad0244ff0_9972618deb834f53c4265dc7c7c92aff3dc3fe004cf9233bb61a04896fa47bca_2de15e05e340a4bc693dbd7975e20fa2c573ca8c36d87ebf30a8ddc53ff15a09_b87bd142477bae9f64479a1c81160873c5a1a61792597a05e814987364556f7c_3d86e43e6dd03ee7d4344250b45e89c0d27a45f0972ecc720fcaa61bd76008e6_341ab87444820c3ab76cc56746472cd70efa84b160b117f335aa04f998656b5b_e347974423c36cc038c85c4d6251d9a83f24d96e9f99ebb2d694f100a8c06466_812c6ec5ed558bdf2eba438ff602624912063513495964d3164d6dd561a5199f_89ac00ffca4746fdb5deb109533ca87dc76eb14682e8ce8dca74df3e2976a424_18ea856d514f38ef0cbf1a8c3c78e207633f7404f412092294f13deaf67982a7_b3c20a9fbed93ff8643a105d9593aa769b1fe15d41ccea4e948f9a10b9f3b0c8_c1a33d4b4a77d121f0ea0d93609d9c6507a1ddbe482875cb3230f9421b2c1d4e_89e960a32dbc0c27571b07804a82e6751445029e888cc46aae095f7ec41542bd_29877d61602c94c3e6c1e1cc22508702c39cd58e1c80351891f3fe443c22b3af

  /** 2^256: every SHA-256 digest read as an integer is below it. */
  const HASH_BOUND: nat := 0x1_0000000000000000_0000000000000000_0000000000000000_0000000000000000

  /** The relation between the two constants that the package relies on,
      and the fact that q is wider than any SHA-256 digest. */
  lemma GroupParameters()
    ensures P == 2 * Q + 1
    ensures HASH_BOUND < Q
  {
  }

  /** Byte strings, the type of a committed secret. */
  type Bytes = seq<bv8>

  /** A SHA-256 digest read as a big-endian integer. */
  type Sha256Int = x: nat | x < HASH_BOUND

  /** Scheme parameters: two elements of the group of order q, chosen so that
      nobody knows log_g(h). Immutable once generated. */
  datatype VSS = VSS(g: nat, h: nat)

  /** A commitment to one message, with the parameters it was made under. */
  datatype Commitment = Commitment(vss: VSS, commitment: nat)

  /** The key that opens a commitment: the blinding exponent r. */
  datatype DecommitmentKey = DecommitmentKey(r: nat)

  // ---------------------------------------------------------------------
  // randomFromZn: draw from [0, n - 1) until the sample is nonzero

  /** A draw the rejection loop throws away: a successful sample that
      rand.Int turns into 0. */
  predicate Rejected(d: Draw, max: nat)
    requires max > 0
  {
    d.Sample? && d.value % max == 0
  }

  /** The first i draws of the stream are all thrown away. */
  ghost predicate RejectedPrefix(tape: seq<Draw>, i: nat, max: nat)
    requires max > 0
  {
    i <= |tape| && forall j :: 0 <= j < i ==> Rejected(tape[j], max)
  }

  /** What randomFromZn(n) returns on the given stream of draws, and what it
      leaves of the stream. It consumes at least one draw whenever there is
      one, and only ever a prefix of the stream. */
  function RandomFromZnSpec(tape: seq<Draw>, n: nat): (r: (Option<nat>, seq<Draw>))
    requires n > 1
    ensures r.0.Some? ==> 0 < r.0.value < n - 1
    ensures |r.1| <= |tape| && r.1 == tape[|tape| - |r.1|..]
    ensures tape != [] ==> |r.1| < |tape|
    decreases |tape|
  {
    var (d, rest) := DrawOf(tape, n - 1);
    if d.None? then (None, rest)
    else if d.value == 0 then RandomFromZnSpec(rest, n)
    else (Some(d.value), rest)
  }

  /** The loop stops at the first draw it does not throw away: it returns that
      sample if it is one, fails if the reader failed there or ran out, and
      leaves exactly the draws after it. */
  lemma {:induction false} RandomFromZnStopsAtFirstKept(tape: seq<Draw>, n: nat, i: nat)
    requires n > 1
    requires RejectedPrefix(tape, i, n - 1)
    requires i == |tape| || !Rejected(tape[i], n - 1)
    ensures RandomFromZnSpec(tape, n) ==
      if i == |tape| then (None, [])
      else if tape[i].Fault? then (None, tape[i + 1..])
      else (Some(tape[i].value % (n - 1)), tape[i + 1..])
    decreases i
  {
    if i > 0 {
      assert Rejected(tape[0], n - 1);
      assert RejectedPrefix(tape[1..], i - 1, n - 1) by {
        forall j | 0 <= j < i - 1 ensures Rejected(tape[1..][j], n - 1) {
          assert tape[1..][j] == tape[j + 1];
        }
      }
      RandomFromZnStopsAtFirstKept(tape[1..], n, i - 1);
      if i < |tape| {
        assert tape[1..][i - 1 + 1..] == tape[i + 1..];
      }
    }
  }

  /** Every stream has a first draw that the loop keeps, or is used up. */
  lemma {:induction false} FirstKeptExists(tape: seq<Draw>, max: nat)
    requires max > 0
    ensures exists i: nat :: RejectedPrefix(tape, i, max) && (i == |tape| || !Rejected(tape[i], max))
    decreases |tape|
  {
    if tape == [] {
      assert RejectedPrefix(tape, 0, max);
    } else if !Rejected(tape[0], max) {
      assert RejectedPrefix(tape, 0, max);
    } else {
      FirstKeptExists(tape[1..], max);
      var i: nat :| RejectedPrefix(tape[1..], i, max) && (i == |tape[1..]| || !Rejected(tape[1..][i], max));
      assert RejectedPrefix(tape, i + 1, max) by {
        forall j | 0 <= j < i + 1 ensures Rejected(tape[j], max) {
          if j > 0 { assert tape[j] == tape[1..][j - 1]; }
        }
      }
    }
  }

  /** With bound n, the reader fails, or runs out, at position i after only
      rejected draws. */
  ghost predicate FailsAt(tape: seq<Draw>, i: nat, n: nat)
    requires n > 1
  {
    RejectedPrefix(tape, i, n - 1) && (i == |tape| || tape[i].Fault?)
  }

  /** randomFromZn fails exactly when the reader fails, or runs out, before
      it has delivered a nonzero value. */
  lemma RandomFromZnFailsIff(tape: seq<Draw>, n: nat)
    requires n > 1
    ensures RandomFromZnSpec(tape, n).0.None? <==> exists i: nat :: FailsAt(tape, i, n)
  {
    var max := n - 1;
    FirstKeptExists(tape, max);
    var k: nat :| RejectedPrefix(tape, k, max) && (k == |tape| || !Rejected(tape[k], max));
    RandomFromZnStopsAtFirstKept(tape, n, k);
    if RandomFromZnSpec(tape, n).0.None? {
      assert FailsAt(tape, k, n);
    }
  }

  /** randomFromZn(n): redraw from rand.Int(rand.Reader, n - 1) until the
      value is nonzero; a failed draw ends the loop with an error. */
  method RandomFromZn(reader: Reader, n: nat) returns (x: Option<nat>)
    requires n > 1
    modifies reader
    ensures (x, reader.tape) == RandomFromZnSpec(old(reader.tape), n)
    ensures x.Some? ==> 0 < x.value < n - 1
  {
    var max := n - 1;
    var v: nat := 0;
    while v == 0
      invariant RandomFromZnSpec(old(reader.tape), n) ==
        if v == 0 then RandomFromZnSpec(reader.tape, n) else (Some(v), reader.tape)
      decreases |reader.tape|
    {
      var d := reader.Int(max);
      if d.None? {
        return None;
      }
      v := d.value;
    }
    x := Some(v);
  }

  // ---------------------------------------------------------------------
  // NewVSS: generate the scheme parameters g and h

  /** k = (p - 1) / q, the cofactor h is raised to. */
  function Cofactor(): (k: nat)
    ensures k == 2
  {
    (P - 1) / Q
  }

  /** What NewVSS returns on the given stream of draws, and what it leaves. */
  function NewVSSSpec(tape: seq<Draw>): (r: (Option<VSS>, seq<Draw>))
    ensures r.0.None? <==>
      RandomFromZnSpec(tape, P).0.None? || RandomFromZnSpec(RandomFromZnSpec(tape, P).1, P).0.None?
  {
    var (randomG, t1) := RandomFromZnSpec(tape, P);
    if randomG.None? then (None, t1)
    else
      var g := Exp(randomG.value, 2, 0);
      var (randomValue, t2) := RandomFromZnSpec(t1, P);
      if randomValue.None? then (None, t2)
      else (Some(VSS(g, Exp(randomValue.value, Cofactor(), P))), t2)
  }

  /** On success g is the square of the first nonzero draw, NOT reduced modulo
      p, so it lies in [1, (p - 2)^2]; h is the square of the second modulo p,
      so it lies below p. */
  lemma NewVSSGenerators(tape: seq<Draw>)
    ensures NewVSSSpec(tape).0.Some? ==>
      var x := RandomFromZnSpec(tape, P).0.value;
      var y := RandomFromZnSpec(RandomFromZnSpec(tape, P).1, P).0.value;
      && NewVSSSpec(tape).0.value == VSS(x * x, (y * y) % P)
      && 1 <= NewVSSSpec(tape).0.value.g <= (P - 2) * (P - 2)
      && NewVSSSpec(tape).0.value.h < P
  {
    var (randomG, t1) := RandomFromZnSpec(tape, P);
    var (randomValue, t2) := RandomFromZnSpec(t1, P);
    if randomG.Some? && randomValue.Some? {
      var x, y := randomG.value, randomValue.value;
      assert NewVSSSpec(tape).0.value == VSS(Exp(x, 2, 0), Exp(y, Cofactor(), P));
      PowSquare(x);
      PowSquare(y);
      assert Exp(x, 2, 0) == x * x;
      assert Exp(y, Cofactor(), P) == (y * y) % P;
      SquareBounds(x, 1, P - 2);
    }
  }

  /** The missing reduction is visible: with the draws p - 2 and 2 the
      generated g is (p - 2)^2, which exceeds p. */
  lemma NewVSSLeavesGUnreduced()
    ensures NewVSSSpec([Sample(P - 2), Sample(2)]) == (Some(VSS((P - 2) * (P - 2), 4)), [])
    ensures (P - 2) * (P - 2) > P
  {
    var tape := [Sample(P - 2), Sample(2)];
    RandomFromZnStopsAtFirstKept(tape, P, 0);
    RandomFromZnStopsAtFirstKept(tape[1..], P, 0);
    NewVSSGenerators(tape);
  }

  /** NewVSS: two draws from randomFromZn(p); g = randomG^2 with no modulus,
      h = randomValue^k mod p. Either failed draw is returned as an error. */
  method NewVSS(reader: Reader) returns (vss: Option<VSS>)
    modifies reader
    ensures (vss, reader.tape) == NewVSSSpec(old(reader.tape))
    ensures vss.Some? ==> 1 <= vss.value.g <= (P - 2) * (P - 2) && vss.value.h < P
  {
    ghost var tape := reader.tape;
    var randomG := RandomFromZn(reader, P);
    if randomG.None? {
      return None;
    }
    var g := Exp(randomG.value, 2, 0);
    var randomValue := RandomFromZn(reader, P);
    if randomValue.None? {
      return None;
    }
    var k := (P - 1) / Q;
    var h := Exp(randomValue.value, k, P);
    vss := Some(VSS(g, h));
    NewVSSGenerators(tape);
  }

  // ---------------------------------------------------------------------
  // Hashing, the commitment formula, commit and verify

  /** hashBytesToBigInt: the SHA-256 digest of the secret reduced modulo mod;
      big.Int.Mod panics on a zero modulus. The result is the residue of the
      digest: below mod and congruent to it. */
  function HashBytesToBigInt(sha256: Bytes -> Sha256Int, secret: Bytes, mod: nat): (digest: nat)
    requires mod > 0
    ensures digest < mod
    ensures (sha256(secret) - digest) % mod == 0
    ensures sha256(secret) < mod ==> digest == sha256(secret)
  {
    var hash := sha256(secret);
    assert hash == (hash / mod) * mod + hash % mod;
    ModAddMultiple(hash / mod, 0, mod);
    hash % mod
  }

  /** Reduced modulo q the digest is the digest itself: q is wider than 256 bits. */
  lemma DigestModQIsHash(sha256: Bytes -> Sha256Int, secret: Bytes)
    ensures HashBytesToBigInt(sha256, secret, Q) == sha256(secret)
  {
  }

  /** CalculateCommitment: (g^digest mod p) * (h^r mod p) mod p, which is
      g^digest * h^r mod p, a value below p. */
  function CalculateCommitment(vss: VSS, digest: nat, r: nat): (c: nat)
    ensures c < P
    ensures c == (Pow(vss.g, digest) * Pow(vss.h, r)) % P
  {
    ModOfProduct(Pow(vss.g, digest), Pow(vss.h, r), P);
    (Exp(vss.g, digest, P) * Exp(vss.h, r, P)) % P
  }

  /** Generators that are not reduced below p (g, as NewVSS leaves it) give
      the same commitments as their residues. */
  lemma CommitmentIgnoresUnreducedGenerators(vss: VSS, digest: nat, r: nat)
    ensures CalculateCommitment(vss, digest, r) == CalculateCommitment(VSS(vss.g % P, vss.h % P), digest, r)
  {
    PowMod(vss.g, digest, P);
    PowMod(vss.h, r, P);
    ModOfProduct(Pow(vss.g, digest), Pow(vss.h, r), P);
    ModOfProduct(Pow(vss.g % P, digest), Pow(vss.h % P, r), P);
  }

  /** Commitment.Verify: recompute the commitment from the revealed secret and
      key under the commitment's own parameters and compare. It holds exactly
      when the stored value is g^H(secret) * h^r mod p, so never for a stored
      value of p or more. */
  function Verify(sha256: Bytes -> Sha256Int, c: Commitment, key: DecommitmentKey, secret: Bytes): (ok: bool)
    ensures ok <==> c.commitment == (Pow(c.vss.g, sha256(secret)) * Pow(c.vss.h, key.r)) % P
    ensures ok ==> c.commitment < P
  {
    var digest := HashBytesToBigInt(sha256, secret, Q);
    var expectedCommitment := CalculateCommitment(c.vss, digest, key.r);
    expectedCommitment == c.commitment
  }

  /** What vss.CommitmentTo(secret) returns on the given stream of draws, and
      what it leaves. It fails exactly when drawing r fails; otherwise the key
      is that r, in [1, q - 2], and the commitment keeps vss, lies below p,
      is g^H(secret) * h^r mod p and verifies against the secret and key. */
  function CommitmentToSpec(sha256: Bytes -> Sha256Int, vss: VSS, tape: seq<Draw>, secret: Bytes)
    : (res: (Option<(Commitment, DecommitmentKey)>, seq<Draw>))
    ensures res.0.None? <==> RandomFromZnSpec(tape, Q).0.None?
    ensures res.1 == RandomFromZnSpec(tape, Q).1
    ensures res.0.Some? ==>
      var (c, key) := res.0.value;
      && key.r == RandomFromZnSpec(tape, Q).0.value
      && 0 < key.r < Q - 1
      && c.vss == vss
      && c.commitment < P
      && c.commitment == (Pow(vss.g, sha256(secret)) * Pow(vss.h, key.r)) % P
      && Verify(sha256, c, key, secret)
  {
    var (r, rest) := RandomFromZnSpec(tape, Q);
    if r.None? then (None, rest)
    else
      var digest := HashBytesToBigInt(sha256, secret, Q);
      var commitment := CalculateCommitment(vss, digest, r.value);
      (Some((Commitment(vss, commitment), DecommitmentKey(r.value))), rest)
  }

  /** vss.CommitmentTo(secret): draw r from randomFromZn(q), hash the secret
      modulo q, and return the commitment and its key, or the draw's error. */
  method CommitmentTo(sha256: Bytes -> Sha256Int, vss: VSS, reader: Reader, secret: Bytes)
    returns (res: Option<(Commitment, DecommitmentKey)>)
    modifies reader
    ensures (res, reader.tape) == CommitmentToSpec(sha256, vss, old(reader.tape), secret)
    ensures res.Some? ==> Verify(sha256, res.value.0, res.value.1, secret)
  {
    var r := RandomFromZn(reader, Q);
    if r.None? {
      return None;
    }
    var digest := HashBytesToBigInt(sha256, secret, Q);
    var commitment := CalculateCommitment(vss, digest, r.value);
    res := Some((Commitment(vss, commitment), DecommitmentKey(r.value)));
  }
}
