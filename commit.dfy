/** Commitments (src/commit.rs) and the keyed-digest primitive they use.

    The primitive (`crypto_mac::Mac`) is a value of type `Mac`: a key size, an
    output size and a keyed digest function `code`. Nothing is assumed about
    `code` except that each digest is `outputSize` bytes long, which the Rust
    type `GenericArray<u8, M::OutputSize>` guarantees. Hiding and binding are
    cryptographic assumptions and are not part of the model. */
module Commitments {

  newtype byte = b: int | 0 <= b < 256

  /** A MAC algorithm: `M::KeySize`, `M::OutputSize` and the digest computed
      by `M::new(key)`, `input(data)`, `result().code()`. */
  datatype MacScheme = MacScheme(keySize: nat, outputSize: nat, code: (seq<byte>, seq<byte>) -> seq<byte>)
  {
    /** Every digest has the algorithm's output size. */
    ghost predicate Wf() {
      forall key, data :: |code(key, data)| == outputSize
    }
  }

  type Mac = m: MacScheme | m.Wf()
    witness MacScheme(0, 0, (key, data) => [])

  /** A commitment to a secret of value type `T`. `T` is only a static tag
      (`PhantomData<T>`): the content of a commit is its digest alone. */
  datatype Commit<T> = Commit(hash: seq<byte>)
  {
    /** `Commit::new`: the digest of `data` under `key`. */
    static function New(mac: Mac, key: seq<byte>, data: seq<byte>): (c: Commit<T>)
      ensures |c.hash| == mac.outputSize
      ensures c.IntoMac() == mac.code(key, data)
    {
      assert mac.Wf();
      Commit(mac.code(key, data))
    }

    /** `Commit::into_mac`: the digest, given up for comparison. */
    function IntoMac(): (code: seq<byte>)
      ensures Commit(code) == this
    {
      hash
    }
  }

  /** The digest depends on `key` and `data` only: neither the value type tag
      nor anything else enters it, and equal digests make equal commits. */
  lemma NewDependsOnlyOnKeyAndData<T, U>(mac: Mac, key: seq<byte>, data: seq<byte>, c: Commit<T>)
    ensures Commit<T>.New(mac, key, data).IntoMac() == Commit<U>.New(mac, key, data).IntoMac()
    ensures c.IntoMac() == mac.code(key, data) <==> c == Commit<T>.New(mac, key, data)
  {
  }
}
