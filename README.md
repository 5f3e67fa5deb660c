# distrand: commit–reveal random number generation, modelled in Dafny

distrand lets several mutually distrusting participants generate a random
value together:

1. Each participant picks a contribution and wraps it in a `Secret`: the value
   plus a random MAC key.
2. In the commit phase, every participant publishes a `Commit`: the MAC of the
   serialized value under that key. An `Exchange` collects the commits, one per
   participant id.
3. Once all commits are in, the exchange turns into a `Reveal`. Participants
   then hand over their secrets.
4. `Reveal::get` checks every secret against its commit:
   - if all are valid, it returns the exclusive-or of every contribution;
   - otherwise it returns the list of participants that are missing a secret
     or whose secret does not match their commit.

The Dafny modules follow the crate's files:

| module | file | models |
|---|---|---|
| `Errors` | `errors.dfy` | `ErrorKind` and `RevealErrorKind` of `src/errors.rs`, and the `Option`/`Result` types |
| `Commitments` | `commit.dfy` | the MAC primitive (`Mac`: key size, output size, keyed digest function) and `Commit` |
| `Secrets` | `secret.dfy` | `Secret`, its `new`, `commit` and `validate` |
| `Combine` | `combine.dfy` | the `^=` combination, the exclusive-or over a set of participants, and its independence from visiting order |
| `Reveals` | `reveal.dfy` | the `Reveal` phase as a class with its `insert` and `get` |
| `Exchanges` | `exchange.dfy` | the `Exchange` phase as a class with its `new`, `insert` and `reveal` |
| `Scenarios` | `scenarios.dfy` | the crate's example program and the three outcomes of `get`, run end to end |

How the model represents the crate:

- **Phases are classes.** `Exchange` and `Reveal` are classes whose maps are
  fields reassigned by their methods.
- **Consumed values.** Rust's `reveal(self)` and `get(mut self)` take the
  phase by value. The model records this in a ghost `consumed` flag that
  every later call must find unset.
- **Value type.** Values in `Exchange` and `Reveal` are `u64` (`bv64`), the
  type of the crate's example. `Secret` and `Commit` stay generic.
- **Iteration order.** `get` walks the `HashMap` of commits in whatever order
  it yields. The model picks the next participant arbitrarily
  (`var id :| id in remaining`). Its specification is stated over the set of
  participants: `Combine.XorOver`, with `Combine.XorAlongAnyOrder` showing
  that every visiting order gives that same value.

## Model

| member | source | states |
|---|---|---|
| Commitments.Commit.New | src/commit.rs:25-33 | the commit's digest is the MAC of `data` under `key`, and it is exactly the MAC's output size |
| Commitments.Commit.IntoMac | src/commit.rs:21-23 | the digest handed out is the whole commit: rebuilding a commit from it gives the same commit |
| Commitments.NewDependsOnlyOnKeyAndData | src/commit.rs:8-15 | the value-type tag (`PhantomData<T>`) does not enter the digest; a commit equals `Commit::new(key, data)` exactly when its digest is the MAC of `data` under `key` |
| Secrets.New | src/secret.rs:31-43 | a new secret keeps the given value and has a key of exactly the MAC's key size, filled from the random source |
| Secrets.Secret.Commit | src/secret.rs:53-58 | fails with `Serialize` exactly when the value cannot be serialized; otherwise the commit's digest is the MAC of the serialized value under the secret's key |
| Secrets.Secret.Validate | src/secret.rs:60-69 | succeeds, returning the secret's value, exactly when the secret's own commit equals the given commit; otherwise the error is `Serialize` (unserializable value) or the "validation failed" message |
| Secrets.ValidateCommit | src/secret.rs:53-69 | a serializable secret validates against the commit it made itself (commit then validate round trip) |
| Secrets.CommitDeterministic | src/secret.rs:53-58 | the same secret always yields the same commit |
| Combine.XorCommutes | src/reveal.rs:94-98 | the `^=` combination is commutative |
| Combine.XorAssociates | src/reveal.rs:94-98 | the `^=` combination is associative |
| Combine.XorIdentity | src/reveal.rs:94-98 | 0 is the identity of the `^=` combination |
| Combine.XorOverRemove | src/reveal.rs:77-99 | any participant may be combined first: the combination over a set is its value XOR the combination over the rest |
| Combine.XorOverSingleton | src/reveal.rs:94-98 | with one participant, the result is that participant's value (the first value is taken as is) |
| Combine.XorOverPair | src/reveal.rs:94-98 | with two participants, the result is the XOR of their two values |
| Combine.XorOverAdd | src/reveal.rs:94-98 | combining one more participant XORs its value into the running result |
| Combine.XorAlongAnyOrder | src/reveal.rs:77-99 | folding `^=` along any order that visits each participant once gives the set-level combination |
| Combine.OrderIndependent | src/reveal.rs:77-99 | two visiting orders of the same participants give the same result: `get` does not depend on the `HashMap`'s iteration order |
| Reveals.Judge | src/reveal.rs:78-92 | the verdict for one participant: `MissingSecret` exactly when no secret was given; a value, equal to the secret's value, exactly when the secret's commit matches the participant's commit; `ValidationFailed` otherwise |
| Reveals.FoldStep | src/reveal.rs:94-98 | one step of `if let Some(v) = result { v ^= value } else { result = Some(value) }` extends the combination over the participants that passed so far |
| Reveals.ReportsFailure | src/reveal.rs:80-90 | pushing a failing participant with its reason keeps the failure list exact and free of duplicate participants |
| Reveals.ReportsSuccess | src/reveal.rs:86-98 | a participant that passes adds nothing to the failure list |
| Reveals.ReportsConclude | src/reveal.rs:101-109 | after the loop the failure list is empty exactly when every participant passed, so the "no errors and no result" panic cannot be reached |
| Reveals.HonestVerdict | src/reveal.rs:78-92 | a participant that reveals the secret behind its own commit passes with its value |
| Reveals.ReportsSingle | src/reveal.rs:101-109 | when exactly one participant fails, the error names that participant alone, once, with its reason |
| Reveals.Reveal.constructor | src/reveal.rs:29-34 | a new reveal holds the given commits and no secret |
| Reveals.Reveal.Insert | src/reveal.rs:40-54 | `NotPresent` for a participant without a commit; `AlreadyInserted` for a second secret; otherwise the secret is added and nothing else changes; every outcome keeps the invariant (non-empty commits, secrets only for committed participants) |
| Reveals.Reveal.Get | src/reveal.rs:73-110 | fails exactly when some committed participant is missing a secret or fails validation; the failure list then names each such participant once with its reason and no one else; on success every participant revealed and the value is the XOR of all revealed values |
| Exchanges.Exchange.constructor | src/exchange.rs:25-29 | a new exchange holds no commit |
| Exchanges.Exchange.Insert | src/exchange.rs:35-44 | `AlreadyInserted` for a second commit from the same participant, with nothing changed; otherwise the commit is added |
| Exchanges.Exchange.Reveal | src/exchange.rs:47-53 | `Empty` when no commit was inserted; otherwise a fresh reveal phase with exactly these commits and no secret; the exchange is used up either way |
| Scenarios.ConstantExample | examples/00-constant.rs:12-43 | the crate's example: one participant contributes 5, no `unwrap` fails, and `get` returns 5 |
| Scenarios.BothReveal | src/reveal.rs:73-110 | two honest participants contributing 3 and 5 get 6 |
| Scenarios.TamperedReveal | src/reveal.rs:86-92 | a participant that changes its value after committing (when the MAC tells the two values apart) makes `get` fail, naming that participant alone with `ValidationFailed` |
| Scenarios.MissingReveal | src/reveal.rs:78-84 | a participant that commits but never reveals makes `get` fail, naming that participant alone with `MissingSecret` |

## Left out

- Randomness. `Secret::new` draws its key from a cryptographic RNG. The model takes the RNG's output as a parameter `random`, so it says nothing about unpredictability.
- Cryptography. The MAC (`crypto_mac::Mac`, e.g. HMAC-SHA512) is an arbitrary function with fixed-size output. Hiding and binding are not modelled; `Scenarios.TamperedReveal` therefore requires that the two digests differ. Constant-time comparison of `MacResult` is not modelled either: it becomes plain equality.
- Serialization. `bincode::serialize` is a parameter that may fail. The wire format itself is not modelled, and neither is the serde `Serialize`/`Deserialize` derived on `Secret`.
- Error formatting. The `error_chain` descriptions, chained causes, and the `Debug`/`Display` implementations of `RevealError` are not modelled. `RevealError::failed` is the sequence itself.
- `src/lib.rs`. It only re-exports items and is not part of this model.
- Reveals.Reveal.Get: values are `u64` rather than any `T: Serialize + BitXorAssign`.
- Reveals.Reveal.Get: the Rust code removes each secret from the map while iterating. The model leaves the map unchanged. This cannot be observed, because `get` consumes the reveal.
- Reveals.Reveal.constructor: it requires a non-empty commit map. `Reveal::new` is crate-private, and its only caller, `Exchange::reveal`, checks exactly that. `get` relies on it: with no commits it would reach its "no errors and no result" panic.
