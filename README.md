# Pedersen commitments, modelled in Dafny

This project models the Pedersen commitment package of keep-core
(`pkg/beacon/relay/pedersen/commitment.go`). The package follows T. Pedersen,
"Non-interactive and information-theoretic secure verifiable secret sharing"
(Crypto '91). It provides four things:

- the fixed group parameters: a 4096-bit safe prime `p` and a Sophie Germain prime `q` with `p = 2q + 1`;
- scheme generation (`NewVSS`), which draws the two generators `g` and `h`;
- commit (`CommitmentTo`), which hashes the secret with SHA-256, reduces the digest modulo `q`,
  draws a blinding exponent `r` and computes `g^digest * h^r mod p`;
- verification (`Verify`), which recomputes that value and compares it with the stored one.

Files:

- `wrappers.dfy`: `Option`. `None` stands for a non-nil Go `error`.
- `bigint.dfy`: `Pow`, and `Exp`, which is the three-argument `big.Int.Exp`. A nil modulus is written `m == 0`.
  The module also holds the modular facts the proofs use: residue of a product, and a power of a reduced base.
- `rand.dfy`: the random source behind `rand.Int(rand.Reader, max)`. `Reader` is a class whose field `tape`
  lists the draws still to come. Each draw is either `Sample(v)`, which yields `v % max`, or `Fault`, a failed read.
  A reader whose tape has run out also fails, as an `io.Reader` at end of stream does.
- `pedersen.dfy`: the constants, the three record types, and the package's functions.

Form of the model. `randomFromZn`, `NewVSS` and `CommitmentTo` consume the reader step by step, so they are
methods. Each method is proved against a pure function of the reader's tape: `RandomFromZnSpec`, `NewVSSSpec`
and `CommitmentToSpec`. The lemmas are stated about those functions. `randomFromZn` keeps its `for x.Sign() == 0`
loop as a `while` loop with an invariant. The loop terminates because every pass consumes one draw.
`hashBytesToBigInt`, `CalculateCommitment` and `Verify` are pure functions. `VSS`, `Commitment` and
`DecommitmentKey` are immutable, so they are datatypes. The constants `p` and `q` are hexadecimal literals
copied from `init`.

SHA-256 (`byteutils.Sha256Sum`) is not part of this model. It is a parameter `sha256: Bytes -> Sha256Int`
of every operation that hashes, and its results are below 2^256.

Where the documentation and the code disagree, the model follows the code:

- `g` is `randomG^2` computed with a nil modulus, so it is not reduced modulo `p`. It can exceed `p`,
  as `NewVSSLeavesGUnreduced` shows. `CommitmentIgnoresUnreducedGenerators` proves that this changes no commitment.
- `randomFromZn(n)` draws from `[0, n - 1)` and rejects 0. Its results therefore lie in `[1, n - 2]`.
  The comment on the function says `(0, 2^n - 1]`. For the key, this means `r` is in `[1, q - 2]`, not `(0, q - 1]`.

## Model

| member | source | states |
|---|---|---|
| `Rand.DrawOf` | pkg/beacon/relay/pedersen/commitment.go:177 | one `rand.Int(reader, max)` call: a value below `max`, or an error exactly when the reader fails or is used up; it consumes exactly one draw |
| `Rand.Reader.Int` | pkg/beacon/relay/pedersen/commitment.go:177 | the reader method returns what `DrawOf` specifies and advances the reader's stream by that one draw |
| `BigInt.Exp` | pkg/beacon/relay/pedersen/commitment.go:95 | `big.Int.Exp(x, y, m)` with `m == 0` for a nil modulus: the result is below `m` when `m > 0`, and equals `x^y` when there is no modulus or `x^y` is already below `m` |
| `Pedersen.GroupParameters` | pkg/beacon/relay/pedersen/commitment.go:66-87 | the constants copied from `init` satisfy `p == 2q + 1`, and `q` is wider than any SHA-256 digest |
| `Pedersen.RandomFromZnSpec` | pkg/beacon/relay/pedersen/commitment.go:165-183 | a value returned by `randomFromZn(n)` is never 0 and lies in `[1, n - 2]`; it consumes a prefix of the stream, and at least one draw when there is one |
| `Pedersen.RandomFromZnStopsAtFirstKept` | pkg/beacon/relay/pedersen/commitment.go:176-182 | the loop exits at the first draw it does not reject; it returns that value if it is a sample, fails if the reader failed or ran out there, and leaves exactly the draws after it |
| `Pedersen.FirstKeptExists` | pkg/beacon/relay/pedersen/commitment.go:176-181 | every stream has a first draw that the loop does not reject, or consists only of rejected draws |
| `Pedersen.RandomFromZnFailsIff` | pkg/beacon/relay/pedersen/commitment.go:176-182 | `randomFromZn` returns an error if and only if the reader fails or runs out before delivering a nonzero value; a result is a value or an error, never both |
| `Pedersen.RandomFromZn` | pkg/beacon/relay/pedersen/commitment.go:166-183 | the rejection loop returns exactly what `RandomFromZnSpec` gives for the reader's stream and leaves the rest of it; any value is in `[1, n - 2]` |
| `Pedersen.Cofactor` | pkg/beacon/relay/pedersen/commitment.go:107-110 | the cofactor `k = (p - 1) / q` equals 2 |
| `Pedersen.NewVSSSpec` | pkg/beacon/relay/pedersen/commitment.go:90-115 | `NewVSS` fails exactly when either of its two `randomFromZn(p)` draws fails, and then returns no parameters |
| `Pedersen.NewVSSGenerators` | pkg/beacon/relay/pedersen/commitment.go:91-114 | on success, `g` is the square of the first draw with no reduction, so `1 <= g <= (p - 2)^2`; `h` is the square of the second draw modulo `p`, so `h < p` |
| `Pedersen.NewVSSLeavesGUnreduced` | pkg/beacon/relay/pedersen/commitment.go:95 | with the draws `p - 2` and `2`, the parameters are `g = (p - 2)^2` and `h = 4`, and this `g` exceeds `p` |
| `Pedersen.NewVSS` | pkg/beacon/relay/pedersen/commitment.go:90-115 | the method returns what `NewVSSSpec` gives and consumes the same draws; any result has `1 <= g <= (p - 2)^2` and `h < p` |
| `Pedersen.HashBytesToBigInt` | pkg/beacon/relay/pedersen/commitment.go:144-148 | the digest is below the modulus, is congruent to the SHA-256 value modulo it, and equals that value whenever the value is already below the modulus |
| `Pedersen.DigestModQIsHash` | pkg/beacon/relay/pedersen/commitment.go:144-148 | reducing a SHA-256 value modulo `q` leaves it unchanged |
| `BigInt.ModOfProduct` | pkg/beacon/relay/pedersen/commitment.go:156-162 | reducing two factors modulo `m` before multiplying gives the same residue as reducing the product |
| `Pedersen.CalculateCommitment` | pkg/beacon/relay/pedersen/commitment.go:155-163 | the commitment value is below `p` and equals `g^digest * h^r mod p` |
| `Pedersen.CommitmentIgnoresUnreducedGenerators` | pkg/beacon/relay/pedersen/commitment.go:155-163 | replacing `g` and `h` by their residues modulo `p` gives the same commitment value, so the unreduced `g` from `NewVSS` is harmless |
| `Pedersen.Verify` | pkg/beacon/relay/pedersen/commitment.go:138-142 | verification holds exactly when the stored value equals `g^H(secret) * h^r mod p` under the commitment's own parameters; a stored value of `p` or more never verifies |
| `Pedersen.CommitmentToSpec` | pkg/beacon/relay/pedersen/commitment.go:123-135 | commit fails exactly when drawing `r` fails; on success the key is that `r` with `0 < r < q - 1`, and the commitment keeps the receiver's parameters and holds `g^H(secret) * h^r mod p`, which is below `p`; the result verifies against the same secret and key |
| `Pedersen.CommitmentTo` | pkg/beacon/relay/pedersen/commitment.go:123-135 | the method returns what `CommitmentToSpec` gives and consumes the same draws; every commitment it returns verifies against its key and secret |

`Verify` has no error path. It reads only the commitment's parameters, the stored value, the key's `r` and the
secret, and as a function it is deterministic.

## Left out

- `crypto/rand` internals: how `rand.Int` turns bytes into a value below `max` is not modelled, nor is the
  distribution of its results. A sample `v` yields `v % max`. No claim is made about uniformity or about
  outputs varying between calls.
- SHA-256 is a parameter. The model proves nothing about what it computes beyond the 2^256 bound.
- Hiding and binding depend on the hardness of discrete logarithms, on hash collisions and on randomness.
  The tampering scenarios depend on them too: another secret, `r + 1`, or two commitments to one secret
  that differ. None of these can be proved here.
- The primality of `p` and `q`, and the membership of `g` and `h` in the subgroup of order `q`, are not modelled.
- `NewVSSGenerators`, `NewVSS`: do not state `h >= 1`. That needs `p` to be prime: no square of a value in `[1, p - 2]` is then divisible by `p`.
- Parsing the hexadecimal strings with `big.Int.SetString`, and the `panic` in `init` when parsing fails.
  The constants are literals here, so that failure cannot occur.
- Error messages built with `fmt.Errorf`. Only the distinction between an error and a value is kept.
- The coin-flipping protocol that should generate `h` jointly. The source marks it as a TODO; it is an external multi-party protocol.
- Concurrency, and any transport of commitments between parties.
- A `Commitment` holds its `VSS` by value, where the Go struct holds a `*VSS`. Nil receivers and nil keys, which would panic, are not modelled.
- `RandomFromZn`: with a real reader, `randomFromZn(2)` never returns, because every sample is 0. Here the stream is
  finite, so that loop ends with an error once the stream is used up. `rand.Int` panics when `max <= 0`; that
  case is excluded by the precondition `n > 1`.
