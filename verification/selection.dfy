/** `chooseRepository`: a uniformly random repository per call. The random source is
    modelled as a nondeterministic choice; its seeding and sharing are not modelled. */
module Selection {
  import opened SparqlClient

  /** The outcome of one choice: a repository and its index, or the
      IllegalArgumentException `Random.nextInt(0)` throws when there is none. */
  datatype Choice = Chosen(index: nat, repository: Repository) | NoRepository

  /** The values `Random.nextInt(bound)` may return for a pool of `bound` repositories
      (any value when the call throws). */
  predicate DrawAllowed(bound: nat, draw: nat) {
    bound == 0 || draw < bound
  }

  method ChooseRepository(repositories: seq<Repository>) returns (c: Choice)
    ensures c.Chosen? <==> |repositories| > 0
    ensures c.Chosen? ==> c.index < |repositories| && c.repository == repositories[c.index]
    ensures c.Chosen? ==> DrawAllowed(|repositories|, c.index)
    ensures |repositories| == 1 ==> c == Chosen(0, repositories[0])
  {
    if |repositories| == 0 {
      return NoRepository;
    }
    var i :| 0 <= i < |repositories|;
    c := Chosen(i, repositories[i]);
  }
}
