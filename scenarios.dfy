/** End-to-end runs of the protocol: the library's example
    (examples/00-constant.rs) and the three outcomes of `get` (everybody valid,
    one tampered secret, one missing secret). */
module Scenarios {
  import opened Errors
  import opened Commitments
  import opened Secrets
  import opened Combine
  import opened Reveals
  import opened Exchanges

  /** The library's example: one participant contributes 5 and gets 5 back;
      none of its `unwrap` calls can fail. */
  method ConstantExample(mac: Mac, serialize: bv64 -> Option<seq<byte>>, random: seq<byte>)
      returns (value: Result<bv64, RevealError<string>>)
    requires |random| >= mac.keySize
    requires serialize(5).Some?
    ensures value == Ok(5)
  {
    var secret := Secrets.New(mac, random, 5);
    var commit := secret.Commit(mac, serialize);
    var exchange := new Exchange<string>(mac);
    var inserted := exchange.Insert("myself", commit.value);
    assert inserted.Ok?;
    var handover := exchange.Reveal();
    var phase := handover.value;
    var accepted := phase.Insert("myself", secret);
    assert accepted.Ok?;
    assert phase.commits.Keys == {"myself"} && phase.secrets == map["myself" := secret];
    HonestVerdict(mac, serialize, phase.commits, phase.secrets, "myself");
    XorOverSingleton("myself", RevealedValues(phase.secrets));
    value := phase.Get(serialize);
  }

  /** A commits 3 and B commits 5; both reveal honestly: the result is
      3 XOR 5 = 6. */
  method BothReveal(mac: Mac, serialize: bv64 -> Option<seq<byte>>, randomA: seq<byte>, randomB: seq<byte>)
      returns (value: Result<bv64, RevealError<char>>)
    requires |randomA| >= mac.keySize && |randomB| >= mac.keySize
    requires serialize(3).Some? && serialize(5).Some?
    ensures value == Ok(6)
  {
    var a := Secrets.New(mac, randomA, 3);
    var b := Secrets.New(mac, randomB, 5);
    var exchange := new Exchange<char>(mac);
    var ca, cb := a.Commit(mac, serialize).value, b.Commit(mac, serialize).value;
    var _ := exchange.Insert('A', ca);
    var _ := exchange.Insert('B', cb);
    var handover := exchange.Reveal();
    var phase := handover.value;
    var _ := phase.Insert('A', a);
    var _ := phase.Insert('B', b);
    assert phase.commits == map['A' := ca, 'B' := cb] && phase.secrets == map['A' := a, 'B' := b];
    HonestVerdict(mac, serialize, phase.commits, phase.secrets, 'A');
    HonestVerdict(mac, serialize, phase.commits, phase.secrets, 'B');
    ghost var verdicts := Verdicts(mac, serialize, phase.commits, phase.secrets);
    assert phase.commits.Keys == {'A', 'B'};
    assert forall id :: id in phase.commits ==> verdicts[id].Ok?;
    ghost var values := RevealedValues(phase.secrets);
    assert values['A'] == 3 && values['B'] == 5;
    XorOverPair('A', 'B', values);
    assert Xor(3, 5) == 6;
    value := phase.Get(serialize);
  }

  /** A and B commit 3 and 5; B then reveals its key with the value changed
      to 2. Given that the digest of 2 under B's key differs from that of 5,
      the reveal fails naming B alone, and no value comes out. */
  method TamperedReveal(mac: Mac, serialize: bv64 -> Option<seq<byte>>, randomA: seq<byte>, randomB: seq<byte>)
      returns (value: Result<bv64, RevealError<char>>)
    requires |randomA| >= mac.keySize && |randomB| >= mac.keySize
    requires serialize(3).Some? && serialize(5).Some? && serialize(2).Some?
    requires mac.code(randomB[..mac.keySize], serialize(2).value) != mac.code(randomB[..mac.keySize], serialize(5).value)
    ensures value == Err([(ValidationFailed, 'B')])
  {
    var a := Secrets.New(mac, randomA, 3);
    var b := Secrets.New(mac, randomB, 5);
    var exchange := new Exchange<char>(mac);
    var ca, cb := a.Commit(mac, serialize).value, b.Commit(mac, serialize).value;
    var _ := exchange.Insert('A', ca);
    var _ := exchange.Insert('B', cb);
    var handover := exchange.Reveal();
    var phase := handover.value;
    var forged := Secret(2, b.key);
    var _ := phase.Insert('A', a);
    var _ := phase.Insert('B', forged);
    assert phase.commits == map['A' := ca, 'B' := cb] && phase.secrets == map['A' := a, 'B' := forged];
    assert phase.commits.Keys == {'A', 'B'};
    ghost var verdicts := Verdicts(mac, serialize, phase.commits, phase.secrets);
    HonestVerdict(mac, serialize, phase.commits, phase.secrets, 'A');
    assert forged.Commit(mac, serialize) != Ok(cb);
    assert verdicts['B'] == Err(ValidationFailed);
    value := phase.Get(serialize);
    ReportsSingle(value.error, verdicts, phase.commits.Keys, 'B');
  }

  /** A and B commit, but only A reveals: the reveal fails naming B alone,
      and no value comes out. */
  method MissingReveal(mac: Mac, serialize: bv64 -> Option<seq<byte>>, randomA: seq<byte>, randomB: seq<byte>)
      returns (value: Result<bv64, RevealError<char>>)
    requires |randomA| >= mac.keySize && |randomB| >= mac.keySize
    requires serialize(3).Some? && serialize(5).Some?
    ensures value == Err([(MissingSecret, 'B')])
  {
    var a := Secrets.New(mac, randomA, 3);
    var b := Secrets.New(mac, randomB, 5);
    var exchange := new Exchange<char>(mac);
    var ca, cb := a.Commit(mac, serialize).value, b.Commit(mac, serialize).value;
    var _ := exchange.Insert('A', ca);
    var _ := exchange.Insert('B', cb);
    var handover := exchange.Reveal();
    var phase := handover.value;
    var _ := phase.Insert('A', a);
    assert phase.commits == map['A' := ca, 'B' := cb] && phase.secrets == map['A' := a];
    assert phase.commits.Keys == {'A', 'B'};
    ghost var verdicts := Verdicts(mac, serialize, phase.commits, phase.secrets);
    HonestVerdict(mac, serialize, phase.commits, phase.secrets, 'A');
    assert verdicts['B'] == Err(MissingSecret);
    value := phase.Get(serialize);
    ReportsSingle(value.error, verdicts, phase.commits.Keys, 'B');
  }
}
