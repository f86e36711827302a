/**
 * The merge-and-rank step of the search report: merge every repository's
 * contributor listing into the contributor table, then rank the table's
 * items. The repository search, the contributor listings and the profile
 * fetches are the inputs: `repos` holds, per repository in search order, its
 * contributor listing, each entry paired with what its profile fetch returned.
 */
module Report {
  import opened Records
  import opened ContributorTable
  import opened Merge
  import opened Ranking

  /** The table's items as the reference merge defines them, in first-seen order. */
  ghost function Reference(records: seq<ContributorRecord>): (items: seq<Entry>)
    ensures |items| == |FirstSeen(records)|
  {
    var order := FirstSeen(records);
    seq(|order|, i requires 0 <= i < |order| => Entry(order[i], Expected(records, order[i])))
  }

  lemma ReferenceLogins(records: seq<ContributorRecord>)
    ensures UniqueLogins(Reference(records))
    ensures Logins(Reference(records)) == Seen(records)
  {
    var items, order := Reference(records), FirstSeen(records);
    FirstSeenIsDistinctSeen(records);
    forall login | login in Seen(records) ensures login in Logins(items) {
      var i :| 0 <= i < |order| && order[i] == login;
      assert items[i] in items;
    }
  }

  /**
   * Merge and rank: every login of every listing appears exactly once; its
   * total is the sum of its contributions and its profile fields are those of
   * its last record; the result is ordered by total, largest first, is a
   * permutation of the table's items, and keeps logins with equal totals in
   * the order they were first seen. Nothing is ranked exactly when every
   * listing is empty (in particular when the search found no repository).
   */
  method Run(repos: seq<Repository>) returns (ranked: seq<Entry>)
    ensures ranked == Rank(Reference(Flatten(repos)))
    ensures SortedDesc(ranked)
    ensures multiset(ranked) == multiset(Reference(Flatten(repos)))
    ensures forall c :: WithKey(ranked, c) == WithKey(Reference(Flatten(repos)), c)
    ensures UniqueLogins(ranked)
    ensures Logins(ranked) == Seen(Flatten(repos))
    ensures forall e :: e in ranked ==> e.agg == Expected(Flatten(repos), e.login)
    ensures ranked == [] <==> forall k :: 0 <= k < |repos| ==> repos[k] == []
  {
    var table := MergeAll(repos);
    var items := Items(table);
    ranked := Rank(items);
    ghost var records := Flatten(repos);
    assert items == Reference(records);
    RankedReference(records);
    FlattenEmpty(repos);
  }

  /** The properties of `Run`, stated of the ranking of the reference items. */
  lemma RankedReference(records: seq<ContributorRecord>)
    ensures forall c :: WithKey(Rank(Reference(records)), c) == WithKey(Reference(records), c)
    ensures UniqueLogins(Rank(Reference(records)))
    ensures Logins(Rank(Reference(records))) == Seen(records)
    ensures forall e :: e in Rank(Reference(records)) ==> e.agg == Expected(records, e.login)
    ensures Rank(Reference(records)) == [] <==> records == []
  {
    var items := Reference(records);
    ReferenceLogins(records);
    RankKeepsLogins(items);
    forall c ensures WithKey(Rank(items), c) == WithKey(items, c) {
      RankIsStable(items, c);
    }
    RankedEntries(records);
    RankedEmpty(records);
  }

  lemma RankedEntries(records: seq<ContributorRecord>)
    ensures forall e :: e in Rank(Reference(records)) ==> e.agg == Expected(records, e.login)
  {
    var items := Reference(records);
    forall e | e in Rank(items) ensures e.agg == Expected(records, e.login) {
      assert e in multiset(Rank(items));
      var i :| 0 <= i < |items| && items[i] == e;
    }
  }

  lemma RankedEmpty(records: seq<ContributorRecord>)
    ensures Rank(Reference(records)) == [] <==> records == []
  {
    var items := Reference(records);
    assert |Rank(items)| == |items| by {
      assert |multiset(Rank(items))| == |multiset(items)|;
    }
    if records != [] {
      assert records[0].login in Seen(records);
      FirstSeenIsDistinctSeen(records);
    }
  }

  /**
   * Ties are ranked in first-seen order: of two ranked logins with equal
   * totals, the earlier one was inserted into the table first.
   */
  lemma TiesInFirstSeenOrder(records: seq<ContributorRecord>, i: int, j: int)
    requires 0 <= i < j < |Rank(Reference(records))|
    requires Key(Rank(Reference(records))[i]) == Key(Rank(Reference(records))[j])
    ensures exists p, q :: 0 <= p < q < |FirstSeen(records)|
                           && FirstSeen(records)[p] == Rank(Reference(records))[i].login
                           && FirstSeen(records)[q] == Rank(Reference(records))[j].login
  {
    var items := Reference(records);
    RankTiesKeepInputOrder(items, i, j);
    var p, q :| 0 <= p < q < |items| && items[p] == Rank(items)[i] && items[q] == Rank(items)[j];
    assert items[p].login == FirstSeen(records)[p];
    assert items[q].login == FirstSeen(records)[q];
  }

  // A two-repository search: (alice 10, bob 5) and (alice 3, carol 7).
  const ProfileAlice1 := Profile(Present(100), Present(7), Null, Present("https://github.com/alice"))
  const ProfileAlice2 := Profile(Present(101), Present(8), Present("Berlin"), Present("https://github.com/alice"))
  const ProfileBob := Profile(Present(20), Absent, Absent, Absent)
  const ProfileCarol := Profile(Present(50), Present(3), Present("Paris"), Absent)
  const R1 := ContributorRecord("alice", 10, ProfileAlice1)
  const R2 := ContributorRecord("bob", 5, ProfileBob)
  const R3 := ContributorRecord("alice", 3, ProfileAlice2)
  const R4 := ContributorRecord("carol", 7, ProfileCarol)
  const Scenario: seq<Repository> := [[R1, R2], [R3, R4]]
  const RankedAlice := Entry("alice", Aggregate(13, Stats(Some(101), Some(8), Some("Berlin"), Some("https://github.com/alice"))))
  const RankedBob := Entry("bob", Aggregate(5, Stats(Some(20), Some(0), Some("Unknown"), Some(""))))
  const RankedCarol := Entry("carol", Aggregate(7, Stats(Some(50), Some(3), Some("Paris"), Some(""))))

  lemma ScenarioRecords()
    ensures Flatten(Scenario) == [R1, R2, R3, R4]
  {
    var repos := Scenario;
    assert repos[..1][..0] == [] && repos[..1] == [[R1, R2]] && repos[..|repos| - 1] == repos[..1];
    assert Flatten(repos[..1]) == [R1, R2];
  }

  lemma ScenarioItems()
    ensures Reference([R1, R2, R3, R4]) == [RankedAlice, RankedBob, RankedCarol]
  {
    var records := [R1, R2, R3, R4];
    assert records[..3] == [R1, R2, R3] && records[..3][..2] == [R1, R2] && records[..3][..2][..1] == [R1];
    assert [R1][..0] == [];
    assert FirstSeen([R1]) == ["alice"];
    assert FirstSeen([R1, R2]) == ["alice", "bob"];
    assert FirstSeen([R1, R2, R3]) == ["alice", "bob"];
    assert FirstSeen(records) == ["alice", "bob", "carol"];
    forall login ensures Total(records, login) == Total([R1, R2, R3], login) + (if login == "carol" then 7 else 0)
                      && Total([R1, R2, R3], login) == Total([R1, R2], login) + (if login == "alice" then 3 else 0)
                      && Total([R1, R2], login) == Total([R1], login) + (if login == "bob" then 5 else 0)
                      && Total([R1], login) == (if login == "alice" then 10 else 0)
    {
    }
    assert LastProfile(records, "alice") == LastProfile([R1, R2, R3], "alice") == Some(ProfileAlice2);
    assert LastProfile(records, "bob") == LastProfile([R1, R2, R3], "bob") == LastProfile([R1, R2], "bob") == Some(ProfileBob);
    assert LastProfile(records, "carol") == Some(ProfileCarol);
  }

  lemma ScenarioRankTwo()
    ensures Rank([RankedAlice, RankedBob]) == [RankedAlice, RankedBob]
  {
    assert [RankedAlice, RankedBob][..1] == [RankedAlice];
    assert [RankedAlice][..0] == [];
    assert Rank([RankedAlice]) == [RankedAlice];
    InsertAfterHead([RankedAlice], RankedBob);
    assert Insert([RankedAlice], RankedBob) == [RankedAlice, RankedBob];
  }

  lemma ScenarioRank()
    ensures Rank([RankedAlice, RankedBob, RankedCarol]) == [RankedAlice, RankedCarol, RankedBob]
  {
    var items := [RankedAlice, RankedBob, RankedCarol];
    assert items[..2] == [RankedAlice, RankedBob];
    ScenarioRankTwo();
    assert Rank(items) == Insert([RankedAlice, RankedBob], RankedCarol);
    InsertAfterHead([RankedAlice, RankedBob], RankedCarol);
    InsertBeforeHead([RankedBob], RankedCarol);
  }

  /**
   * The two-repository search ranks alice (13), carol (7), bob (5); alice's
   * profile fields are those of the second record for that login, and the
   * keys missing from bob's profile take their fallbacks.
   */
  lemma TwoRepositoryScenario()
    ensures Rank(Reference(Flatten(Scenario))) == [RankedAlice, RankedCarol, RankedBob]
  {
    ScenarioRecords();
    ScenarioItems();
    ScenarioRank();
  }
}
