/** The reveal phase (src/reveal.rs): collects the participants' secrets and
    checks them against the commits gathered by the exchange.

    Values are `u64` (`bv64`), the type the library's example uses; `get`
    needs `BitXorAssign` on them. */
module Reveals {
  import opened Errors
  import opened Commitments
  import opened Secrets
  import opened Combine

  /** What `get` concludes about one participant: its value, or why it failed. */
  function Judge(mac: Mac, serialize: bv64 -> Option<seq<byte>>, commit: Commit<bv64>, secret: Option<Secret<bv64>>): (r: Result<bv64, RevealErrorKind>)
    ensures secret.None? ==> r == Err(MissingSecret)
    ensures secret.Some? ==> r != Err(MissingSecret)
    ensures r.Ok? <==> secret.Some? && secret.value.Commit(mac, serialize) == Ok(commit)
    ensures r.Ok? ==> r.value == secret.value.value
  {
    match secret
    case None => Err(MissingSecret)
    case Some(s) =>
      match s.Validate(mac, serialize, commit)
      case Ok(v) => Ok(v)
      case Err(_) => Err(ValidationFailed)
  }

  /** The value each participant revealed. */
  ghost function RevealedValues<Id>(secrets: map<Id, Secret<bv64>>): (values: map<Id, bv64>)
    ensures values.Keys == secrets.Keys
  {
    map id | id in secrets :: secrets[id].value
  }

  /** What `get` concludes about every committed participant. */
  ghost function Verdicts<Id>(mac: Mac, serialize: bv64 -> Option<seq<byte>>,
                              commits: map<Id, Commit<bv64>>, secrets: map<Id, Secret<bv64>>): (v: map<Id, Result<bv64, RevealErrorKind>>)
    ensures v.Keys == commits.Keys
  {
    map id | id in commits :: Judge(mac, serialize, commits[id], Lookup(secrets, id))
  }

  /** `failed` lists exactly the participants among `ids` whose verdict is a
      failure, each with the reason it fails for. */
  ghost predicate Reports<Id>(failed: RevealError<Id>, verdicts: map<Id, Result<bv64, RevealErrorKind>>, ids: set<Id>)
    requires ids <= verdicts.Keys
  {
    && (forall k :: 0 <= k < |failed| ==> failed[k].1 in ids && verdicts[failed[k].1] == Err(failed[k].0))
    && (forall id :: id in ids && verdicts[id].Err? ==> (verdicts[id].error, id) in failed)
  }

  /** No participant is listed twice. */
  ghost predicate UniqueIds<Id>(failed: RevealError<Id>) {
    forall j, k :: 0 <= j < k < |failed| ==> failed[j].1 != failed[k].1
  }

  /** A participant that fails joins the report. */
  lemma ReportsFailure<Id>(failed: RevealError<Id>, verdicts: map<Id, Result<bv64, RevealErrorKind>>, ids: set<Id>, id: Id)
    requires ids <= verdicts.Keys && id in verdicts && id !in ids
    requires Reports(failed, verdicts, ids) && UniqueIds(failed)
    requires verdicts[id].Err?
    ensures Reports(failed + [(verdicts[id].error, id)], verdicts, ids + {id})
    ensures UniqueIds(failed + [(verdicts[id].error, id)])
  {
  }

  /** A participant that passes leaves the report as it is. */
  lemma ReportsSuccess<Id>(failed: RevealError<Id>, verdicts: map<Id, Result<bv64, RevealErrorKind>>, ids: set<Id>, id: Id)
    requires ids <= verdicts.Keys && id in verdicts
    requires Reports(failed, verdicts, ids)
    requires verdicts[id].Ok?
    ensures Reports(failed, verdicts, ids + {id})
  {
  }

  /** Once every participant is judged, the report is empty exactly when
      every participant passed. */
  lemma ReportsConclude<Id>(failed: RevealError<Id>, verdicts: map<Id, Result<bv64, RevealErrorKind>>, ids: set<Id>, valid: set<Id>)
    requires ids <= verdicts.Keys && valid <= ids
    requires Reports(failed, verdicts, ids)
    requires forall id :: id in ids ==> (id in valid <==> verdicts[id].Ok?)
    ensures failed == [] <==> forall id :: id in ids ==> verdicts[id].Ok?
    ensures failed == [] ==> valid == ids
  {
    if failed != [] {
      assert failed[0].1 in ids && verdicts[failed[0].1].Err?;
    }
  }

  /** One `^=` step of the running combination over the participants that
      passed so far. */
  lemma FoldStep<Id>(result: Option<bv64>, valid: set<Id>, values: map<Id, bv64>, id: Id, value: bv64)
    requires valid <= values.Keys && id in values && id !in valid && values[id] == value
    requires result == if valid == {} then None else Some(XorOver(valid, values))
    ensures (if result.Some? then Xor(result.value, value) else value) == XorOver(valid + {id}, values)
  {
    if result.Some? {
      XorOverAdd(valid, values, id);
    } else {
      assert valid + {id} == {id};
      XorOverSingleton(id, values);
    }
  }

  /** A participant that revealed the secret behind its own commit passes,
      with the value it revealed. */
  lemma HonestVerdict<Id>(mac: Mac, serialize: bv64 -> Option<seq<byte>>,
                          commits: map<Id, Commit<bv64>>, secrets: map<Id, Secret<bv64>>, id: Id)
    requires id in commits && id in secrets
    requires secrets[id].Commit(mac, serialize) == Ok(commits[id])
    ensures Verdicts(mac, serialize, commits, secrets)[id] == Ok(secrets[id].value)
  {
  }

  /** When exactly one participant fails, the report names exactly that
      participant, once, with its reason. */
  lemma {:induction false} ReportsSingle<Id>(failed: RevealError<Id>, verdicts: map<Id, Result<bv64, RevealErrorKind>>, ids: set<Id>, culprit: Id)
    requires ids <= verdicts.Keys && culprit in ids && verdicts[culprit].Err?
    requires forall id :: id in ids && id != culprit ==> verdicts[id].Ok?
    requires Reports(failed, verdicts, ids) && UniqueIds(failed)
    ensures failed == [(verdicts[culprit].error, culprit)]
  {
    var entry := (verdicts[culprit].error, culprit);
    assert entry in failed;
    forall k | 0 <= k < |failed| ensures failed[k] == entry {
      assert failed[k].1 in ids && verdicts[failed[k].1] == Err(failed[k].0);
    }
    assert |failed| <= 1 by {
      assert |failed| > 1 ==> failed[0].1 == failed[1].1;
    }
  }

  class Reveal<Id(==)> {
    const mac: Mac
    /** The commits handed over by the exchange; never changed afterwards. */
    const commits: map<Id, Commit<bv64>>
    var secrets: map<Id, Secret<bv64>>
    /** Set once `get` has taken the reveal by value. */
    ghost var consumed: bool

    /** A reveal holds at least one commit, and only committed participants
        have a secret. */
    ghost predicate Valid()
      reads this
    {
      commits != map[] && secrets.Keys <= commits.Keys
    }

    /** `Reveal::new`: called only by `Exchange::reveal`, which hands over a
        non-empty commit map. */
    constructor (mac: Mac, commits: map<Id, Commit<bv64>>)
      requires commits != map[]
      ensures Valid() && !consumed
      ensures this.mac == mac && this.commits == commits && secrets == map[]
    {
      this.mac := mac;
      this.commits := commits;
      secrets := map[];
      consumed := false;
    }

    /** `Reveal::insert`: a secret is accepted once per committed participant. */
    method Insert(id: Id, secret: Secret<bv64>) returns (r: Result<(), ErrorKind>)
      requires Valid() && !consumed
      modifies this
      ensures Valid() && !consumed
      ensures id !in commits ==> r == Err(NotPresent) && secrets == old(secrets)
      ensures id in commits && id in old(secrets) ==> r == Err(AlreadyInserted) && secrets == old(secrets)
      ensures id in commits && id !in old(secrets) ==> r == Ok(()) && secrets == old(secrets)[id := secret]
    {
      if id !in commits {
        return Err(NotPresent);
      }
      if id in secrets {
        return Err(AlreadyInserted);
      }
      secrets := secrets[id := secret];
      r := Ok(());
    }

    /** `Reveal::get`: visits every committed participant, in whatever order
        the commit map yields them, without stopping at the first failure.
        Succeeds with the exclusive-or of all revealed values when everybody
        revealed a valid secret; otherwise reports every participant that
        failed and gives no value at all. */
    method Get(serialize: bv64 -> Option<seq<byte>>) returns (r: Result<bv64, RevealError<Id>>)
      requires Valid() && !consumed
      modifies this
      ensures consumed && secrets == old(secrets)
      ensures r.Err? <==> exists id :: id in commits && Verdicts(mac, serialize, commits, secrets)[id].Err?
      ensures r.Err? ==> Reports(r.error, Verdicts(mac, serialize, commits, secrets), commits.Keys) && UniqueIds(r.error)
      ensures r.Ok? ==> commits.Keys <= secrets.Keys && r.value == XorOver(commits.Keys, RevealedValues(secrets))
    {
      ghost var verdicts := Verdicts(mac, serialize, commits, secrets);
      ghost var values := RevealedValues(secrets);
      var failed: RevealError<Id> := [];
      var result: Option<bv64> := None;
      var remaining := commits.Keys;
      ghost var visited: set<Id> := {};
      ghost var valid: set<Id> := {};
      while remaining != {}
        invariant secrets == old(secrets)
        invariant remaining !! visited && remaining + visited == commits.Keys
        invariant valid <= visited && valid <= secrets.Keys
        invariant forall id :: id in visited ==> (id in valid <==> verdicts[id].Ok?)
        invariant result == if valid == {} then None else Some(XorOver(valid, values))
        invariant Reports(failed, verdicts, visited) && UniqueIds(failed)
        decreases remaining
      {
        var id :| id in remaining;
        remaining := remaining - {id};
        match Judge(mac, serialize, commits[id], Lookup(secrets, id)) {
          case Err(kind) =>
            ReportsFailure(failed, verdicts, visited, id);
            failed := failed + [(kind, id)];
          case Ok(value) =>
            ReportsSuccess(failed, verdicts, visited, id);
            FoldStep(result, valid, values, id, value);
            if result.Some? {
              result := Some(Xor(result.value, value));
            } else {
              result := Some(value);
            }
            valid := valid + {id};
        }
        visited := visited + {id};
      }
      consumed := true;
      ReportsConclude(failed, verdicts, visited, valid);
      if failed == [] {
        r := Ok(result.value);
      } else {
        r := Err(failed);
      }
    }
  }
}
