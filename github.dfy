/** Values the remote GitHub client hands back to the core. The client itself
    (go-github and its HTTP calls) is external: every result it would produce
    is passed into the model as an input of one of these types. */
module GitHub {

  /** An opaque point in time (seconds); only stored and compared, never computed with. */
  type Time = int

  /** One quota class as reported by the rate-limit endpoint. */
  datatype Rate = Rate(remaining: int, reset: Time)

  /** The two independent quota classes. */
  datatype RateLimits = RateLimits(core: Rate, search: Rate)

  /** The outcome of asking the provider for its rate limits. */
  datatype RateResult = RateOk(limits: RateLimits) | RateErr

  /** One week of a contributor's statistics. */
  datatype WeeklyStats = WeeklyStats(additions: int, deletions: int, commits: int)

  /** One entry of the repository contributor listing. */
  datatype Contributor = Contributor(login: string, contributions: int)

  /** One page of the contributor listing, with the pagination cursor that
      the client derives from the response's Link header (0 when the header
      names no such page). */
  datatype PageResult =
    | PageOk(contributors: seq<Contributor>, nextPage: int, lastPage: int)
    | PageErr
}
