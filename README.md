# Contributor merge-and-rank of find-talents

find-talents is a small Streamlit app. It searches GitHub repositories for a
query, lists each repository's contributors, and fetches each contributor's
profile. It then merges the contributors into one login-keyed table and
shows that table ranked by total contributions. This project models that
merge-and-rank step of `main()` in `app.py` and proves what it computes.

The three HTTP fetches are inputs to the model. `repos` is the search result
in search order. Each repository is its contributor listing. Each listing
entry (`ContributorRecord`) carries the login, the contribution count, and the
profile that this entry's own profile fetch returned. The code fetches a
profile once per listing entry, not once per login, so two entries for one
login may carry different profiles.

Modules, following the program's structure:

- `Records` (`records.dfy`): the values. `Lookup<T>` is one key of a decoded
  JSON object: `Absent`, `Null` or `Present(v)`. `Get` is `dict.get(key,
  default)`: the default for an absent key, Python `None` for a JSON `null`,
  the value otherwise. `Aggregate` is the per-login record: the running
  total plus the four profile fields (`Stats`).
- `ContributorTable` (`table.dfy`): the `defaultdict` as a map plus the
  logins in insertion order. A Python dict iterates in insertion order, and
  the tie order of the ranking depends on it.
- `Merge` (`merge.dfy`): reference definitions of the merged result,
  independent of the table: the per-login sum (`Total`), the last profile
  (`LastProfile`), and first-seen order (`FirstSeen`). It also holds the
  nested merge loop `MergeAll`, proved to produce exactly that result.
- `Ranking` (`ranking.dfy`): `sorted(items, key=contributions,
  reverse=True)`. This is a stable sort, modelled as insertion sort. Its
  stability, sortedness and permutation are proved, and so is uniqueness:
  every stable descending sort gives the same sequence. So the model's sort
  and Python's Timsort agree.
- `Report` (`report.dfy`): `Run`, which merges and ranks, plus the
  end-to-end properties and a worked two-repository scenario.

What `app.py` does, and so what the model does:

- The profile is fetched once per listing entry (line 49), not once per login.
- Equal totals keep first-seen order (line 58). There is no tie-break by login.
- There is no pagination, rate-limit handling or failure handling.
- A profile whose `location` is JSON `null` gives Python `None`
  (`Option.None` here), not `'Unknown'`. `.get` falls back only when the
  key is absent.

The default record (`contributions 0`, `followers 0`, `public_repos 0`,
`location ''`, `url ''`) is created on a login's first sighting. Its profile
fields are overwritten by the same record, so they never reach the output
(`Merge.LastProfileExactlyWhenSeen`).

## Model

| member | source | states |
|---|---|---|
| `Records.Resolve` | app.py:52-55 | Each profile field is read with its own fallback when the key is missing: followers 0, public_repos 0, location "Unknown", url "". A present value is kept; a JSON null gives None. Each field goes through `Get`, the model of `dict.get(key, default)`. |
| `ContributorTable.Touch` | app.py:42 | Indexing the defaultdict leaves a known login unchanged. A new login gets the zero record (0 contributions, zero counts, empty strings) and goes at the end of the insertion order. Keys stay unique. |
| `ContributorTable.MergeRecord` | app.py:48-55 | One listing entry adds its count to the login's total, starting from 0 for a new login. It overwrites the four profile fields with this entry's fetched profile. Every other login is unchanged, and the order grows only for a new login. |
| `ContributorTable.Items` | app.py:58 | The table's items in insertion order: item i is the i-th inserted login paired with its record. Logins are distinct, and every key of the table occurs with its record. |
| `Merge.MergeAll` | app.py:42-55 | After the nested loop over repositories and listings, the table has exactly the seen logins, in first-seen order, each once. Each record holds the login's summed contributions and the profile fields of its last entry. |
| `Merge.MergeStep` | app.py:47-55 | Merging one more entry turns the merge of a sequence into the merge of that sequence extended by the entry. |
| `Merge.FirstSeenIsDistinctSeen` | app.py:42 | The insertion order lists every seen login exactly once and nothing else. |
| `Merge.FirstSeenOrder` | app.py:44-51 | Of two logins in insertion order, the earlier one has an entry before any entry of the later one. |
| `Merge.TotalAcrossRepositories` | app.py:44-51 | A login's total equals the sum, over repositories, of its contribution counts in each listing. |
| `Merge.TotalUnseen` | app.py:42 | A login with no entry has total 0, the default record's value. |
| `Merge.LastProfileIsLast` | app.py:44-55 | The profile fields kept for a login come from its last entry in processing order. Earlier profiles are overwritten, not accumulated. |
| `Merge.LastProfileExactlyWhenSeen` | app.py:49-55 | A login has a fetched profile exactly when it was seen, so the default record's profile fields never survive. |
| `Merge.ConsistentFetches` | app.py:49-55 | If every fetch of a login returns the same profile, the kept fields are that profile's, however often it was fetched. |
| `Merge.EmptyRepositoryIsNeutral` | app.py:44-47 | Inserting a repository with an empty listing anywhere adds no entry, so the table and ranking are unchanged. |
| `Merge.FlattenEmpty` | app.py:44-47 | There are no entries exactly when every listing is empty, including when there are zero repositories. |
| `Ranking.Insert` | app.py:58 | Inserting an item adds exactly that item: the result's multiset is the input's plus the item. |
| `Ranking.InsertSorted` | app.py:58 | Inserting into a descending sequence keeps it descending. |
| `Ranking.Rank` | app.py:58 | The ranking is a permutation of the table's items and is ordered by contributions, non-increasing. |
| `Ranking.InsertWithKey` | app.py:58 | An inserted item follows every existing item with the same total. |
| `Ranking.RankIsStable` | app.py:58 | For every total, the items with that total appear in the ranking in their input order. |
| `Ranking.RankTiesKeepInputOrder` | app.py:58 | Two ranked items with equal totals come from input positions in the same order. |
| `Ranking.RankKeepsLogins` | app.py:58 | Ranking items with distinct logins keeps them distinct and loses or adds no login. |
| `Ranking.SortedWithSameKeysEqual` | app.py:58 | Two descending sequences with the same items of each total, in the same order, are equal. |
| `Ranking.StableSortIsUnique` | app.py:58 | Any descending sequence that keeps the input order among equal totals equals the ranking, so every stable sort gives this result. |
| `Report.ReferenceLogins` | app.py:42-51 | The table's items have distinct logins, and their logins are exactly the seen ones. |
| `Report.Run` | app.py:41-58 | The full step: ranked descending and a permutation of the merged table's items. Ties keep first-seen order. Each seen login appears exactly once, with summed contributions and its last profile. The output is empty exactly when every listing is empty. |
| `Report.TiesInFirstSeenOrder` | app.py:42-58 | Of two ranked logins with equal totals, the first-ranked was inserted into the table first. |
| `Report.TwoRepositoryScenario` | app.py:44-58 | Repositories (alice 10, bob 5) and (alice 3, carol 7) rank alice 13, carol 7, bob 5. alice keeps the second entry's profile, and bob's missing keys take their fallbacks. |

## Left out

- `fetch_repositories`, `fetch_contributor_info`, `fetch_profile_data` (app.py:17-32): HTTP GETs and JSON decoding. Their results are the inputs `repos` and each entry's `profile`. A failed or malformed response (for example `data['items']` missing) is not modelled.
- The response cache with its 5-hour expiry (app.py:7): a foreign library with process-wide state. A cached or fresh profile is simply whatever the entry carries.
- Reading the token from the app's secrets and building the request headers and URLs (app.py:12-15, 19, 25, 30): configuration and I/O plumbing.
- The Streamlit page: title, text input, button and the `st.write` loop that renders the ranking (app.py:35-40, 61-69).
- JSON value types: contribution counts and follower and repository counts are modelled as integers, and location and url as strings. A response holding another JSON type where one is expected is not modelled.
- Pagination, rate-limit backoff, per-login deduplication of profile fetches, a login tie-break, and concurrency: the code has none of them.
