/**
 * The values that flow through the contributor merge: what one contributor
 * listing and one profile fetch return, and the per-login aggregate record
 * kept in the contributor table.
 */
module Records {

  datatype Option<+T> = None | Some(value: T)

  /** One key of a decoded JSON object: absent, present with `null`, or present with a value. */
  datatype Lookup<+T> = Absent | Null | Present(value: T)

  /**
   * `obj.get(key, default)` on a decoded JSON object: the default when the key
   * is absent, Python's `None` when the key holds `null`, the value otherwise.
   */
  function Get<T>(field: Lookup<T>, default: T): Option<T>
  {
    match field
    case Absent => Some(default)
    case Null => None
    case Present(v) => Some(v)
  }

  /** The four keys of a user profile the merge reads. */
  datatype Profile = Profile(
    followers: Lookup<int>,
    publicRepos: Lookup<int>,
    location: Lookup<string>,
    htmlUrl: Lookup<string>)

  /** One entry of a repository's contributor listing, paired with the profile its fetch returned. */
  datatype ContributorRecord = ContributorRecord(login: string, contributions: int, profile: Profile)

  /** A repository, as far as the merge sees it: its contributor listing, in listing order. */
  type Repository = seq<ContributorRecord>

  /** The profile part of an aggregate record (`followers`, `public_repos`, `location`, `url`). */
  datatype Stats = Stats(followers: Option<int>, publicRepos: Option<int>, location: Option<string>, url: Option<string>)

  /** The record kept per login: running total of contributions plus the profile fields. */
  datatype Aggregate = Aggregate(contributions: int, stats: Stats)

  /** The default-factory record a login starts from: zero contributions, zero counts, empty strings. */
  const DefaultStats := Stats(Some(0), Some(0), Some(""), Some(""))
  const DefaultAggregate := Aggregate(0, DefaultStats)

  /**
   * The profile fields one fetch writes: each read with its own fallback
   * (0, 0, "Unknown", "") when the key is missing from the response.
   */
  function Resolve(p: Profile): (s: Stats)
    ensures p.followers.Absent? ==> s.followers == Some(0)
    ensures p.publicRepos.Absent? ==> s.publicRepos == Some(0)
    ensures p.location.Absent? ==> s.location == Some("Unknown")
    ensures p.htmlUrl.Absent? ==> s.url == Some("")
    ensures p.followers.Present? ==> s.followers == Some(p.followers.value)
    ensures p.publicRepos.Present? ==> s.publicRepos == Some(p.publicRepos.value)
    ensures p.location.Present? ==> s.location == Some(p.location.value)
    ensures p.htmlUrl.Present? ==> s.url == Some(p.htmlUrl.value)
    ensures p.followers.Null? ==> s.followers == None
    ensures p.publicRepos.Null? ==> s.publicRepos == None
    ensures p.location.Null? ==> s.location == None
    ensures p.htmlUrl.Null? ==> s.url == None
  {
    Stats(Get(p.followers, 0), Get(p.publicRepos, 0), Get(p.location, "Unknown"), Get(p.htmlUrl, ""))
  }

  /** One item of the table's `items()`: a login with its aggregate record. */
  datatype Entry = Entry(login: string, agg: Aggregate)
}
