/** The commit phase (src/exchange.rs): collects one commit per participant
    and then turns into the reveal phase. */
module Exchanges {
  import opened Errors
  import opened Commitments
  import opened Reveals

  class Exchange<Id(==)> {
    const mac: Mac
    var commits: map<Id, Commit<bv64>>
    /** Set once `reveal` has taken the exchange by value: the Rust type
        system then rejects every further use of it. */
    ghost var consumed: bool

    /** `Exchange::new`: no commits yet. */
    constructor (mac: Mac)
      ensures this.mac == mac && commits == map[] && !consumed
    {
      this.mac := mac;
      commits := map[];
      consumed := false;
    }

    /** `Exchange::insert`: the first commit of a participant is kept; a
        second one is refused and changes nothing. */
    method Insert(id: Id, commit: Commit<bv64>) returns (r: Result<(), ErrorKind>)
      requires !consumed
      modifies this
      ensures !consumed
      ensures id in old(commits) ==> r == Err(AlreadyInserted) && commits == old(commits)
      ensures id !in old(commits) ==> r == Ok(()) && commits == old(commits)[id := commit]
    {
      if id in commits {
        r := Err(AlreadyInserted);
      } else {
        commits := commits[id := commit];
        r := Ok(());
      }
    }

    /** `Exchange::reveal`: refused while no participant has committed;
        otherwise a fresh reveal phase takes over the commits, with no secret
        yet. Either way the exchange is used up. */
    method Reveal() returns (r: Result<Reveals.Reveal<Id>, ErrorKind>)
      requires !consumed
      modifies this
      ensures consumed && commits == old(commits)
      ensures commits == map[] ==> r == Err(Empty)
      ensures commits != map[] ==> r.Ok? && fresh(r.value)
      ensures r.Ok? ==> r.value.Valid() && !r.value.consumed && r.value.mac == mac
                        && r.value.commits == commits && r.value.secrets == map[]
    {
      consumed := true;
      if commits == map[] {
        r := Err(Empty);
      } else {
        var phase := new Reveals.Reveal(mac, commits);
        r := Ok(phase);
      }
    }
  }
}
