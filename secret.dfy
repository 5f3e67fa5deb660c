/** A participant's contribution (src/secret.rs): a value and a random key.

    The serializer (`bincode::serialize`) is a parameter `serialize` that maps a
    value to its bytes, or to `None` when the value cannot be serialized. */
module Secrets {
  import opened Errors
  import opened Commitments

  datatype Secret<T> = Secret(value: T, key: seq<byte>)
  {
    /** `Secret::commit`: the digest of the serialized value under the key. */
    function Commit(mac: Mac, serialize: T -> Option<seq<byte>>): (r: Result<Commitments.Commit<T>, ErrorKind>)
      ensures r.Err? <==> serialize(value).None?
      ensures r.Err? ==> r.error == Serialize
      ensures r.Ok? ==> r.value.IntoMac() == mac.code(key, serialize(value).value)
      ensures r.Ok? ==> |r.value.IntoMac()| == mac.outputSize
    {
      match serialize(value)
      case None => Err(Serialize)
      case Some(bytes) => Ok(Commitments.Commit<T>.New(mac, key, bytes))
    }

    /** `Secret::validate`: the value, when `commit` is the commitment this
        secret makes. */
    function Validate(mac: Mac, serialize: T -> Option<seq<byte>>, commit: Commitments.Commit<T>): (r: Result<T, ErrorKind>)
      ensures r.Ok? <==> Commit(mac, serialize) == Ok(commit)
      ensures r.Ok? ==> r.value == value
      ensures serialize(value).None? ==> r == Err(Serialize)
      ensures serialize(value).Some? && !r.Ok? ==> r == Err(Msg("validation failed"))
    {
      match Commit(mac, serialize)
      case Err(e) => Err(e)
      case Ok(mine) =>
        if mine.IntoMac() == commit.IntoMac() then Ok(value)
        else Err(Msg("validation failed"))
    }
  }

  /** `Secret::new`: `random` is what the random number generator yields;
      the key buffer of `mac.keySize` zero bytes is filled from it. */
  method New<T>(mac: Mac, random: seq<byte>, value: T) returns (s: Secret<T>)
    requires |random| >= mac.keySize
    ensures s.value == value
    ensures |s.key| == mac.keySize
    ensures s.key == random[..mac.keySize]
  {
    var key := new byte[mac.keySize];
    forall i | 0 <= i < key.Length {
      key[i] := random[i];
    }
    s := Secret(value, key[..]);
  }

  /** A secret validates against the commitment it makes. */
  lemma ValidateCommit<T>(mac: Mac, serialize: T -> Option<seq<byte>>, s: Secret<T>)
    requires serialize(s.value).Some?
    ensures s.Commit(mac, serialize).Ok?
    ensures s.Validate(mac, serialize, s.Commit(mac, serialize).value) == Ok(s.value)
  {
  }

  /** Two commitments made from one secret are equal. */
  lemma CommitDeterministic<T>(mac: Mac, serialize: T -> Option<seq<byte>>, s: Secret<T>, t: Secret<T>)
    requires s == t
    ensures s.Commit(mac, serialize) == t.Commit(mac, serialize)
  {
  }
}
