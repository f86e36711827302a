/**
 * The merge: every contributor record of every repository, in order, folded
 * into the contributor table. This module first defines, independently of the
 * table, what the merged result should be for a sequence of records (the sum
 * of contributions per login, the last profile fetched per login, the logins
 * in order of first sighting), then proves the nested merge loop computes it.
 */
module Merge {
  import opened Records
  import opened ContributorTable

  /** All contributor records of all repositories, outer loop over repositories, inner over listings. */
  function Flatten(repos: seq<Repository>): seq<ContributorRecord>
  {
    if repos == [] then [] else Flatten(repos[..|repos| - 1]) + repos[|repos| - 1]
  }

  /** Sum of the contribution counts of the records for `login`. */
  function Total(records: seq<ContributorRecord>, login: string): int
  {
    if records == [] then 0
    else
      var last := records[|records| - 1];
      Total(records[..|records| - 1], login) + (if last.login == login then last.contributions else 0)
  }

  /** The logins that occur in some record. */
  ghost function Seen(records: seq<ContributorRecord>): set<string>
  {
    set i | 0 <= i < |records| :: records[i].login
  }

  /** The profile carried by the last record for `login`, if there is one. */
  function LastProfile(records: seq<ContributorRecord>, login: string): Option<Profile>
  {
    if records == [] then None
    else if records[|records| - 1].login == login then Some(records[|records| - 1].profile)
    else LastProfile(records[..|records| - 1], login)
  }

  /** The distinct logins, in the order of their first record. */
  function FirstSeen(records: seq<ContributorRecord>): seq<string>
  {
    if records == [] then []
    else
      var earlier := FirstSeen(records[..|records| - 1]);
      var login := records[|records| - 1].login;
      if login in earlier then earlier else earlier + [login]
  }

  /**
   * The record the table should hold for `login`: the total of its
   * contributions, and the profile fields of the last record for it (the
   * default fields for a login that has no record).
   */
  function Expected(records: seq<ContributorRecord>, login: string): Aggregate
  {
    Aggregate(
      Total(records, login),
      match LastProfile(records, login)
      case None => DefaultStats
      case Some(p) => Resolve(p))
  }

  /** `t` is the merge of `records`: keys, insertion order and every record as the reference says. */
  ghost predicate Accounts(t: Table, records: seq<ContributorRecord>)
  {
    && t.Valid()
    && t.order == FirstSeen(records)
    && (forall login :: login in t.entries <==> login in Seen(records))
    && (forall login :: login in t.entries ==> t.entries[login] == Expected(records, login))
  }

  lemma SnocPrefix(records: seq<ContributorRecord>, c: ContributorRecord)
    ensures (records + [c])[..|records|] == records
  {
  }

  lemma SeenSnoc(records: seq<ContributorRecord>, c: ContributorRecord)
    ensures Seen(records + [c]) == Seen(records) + {c.login}
  {
    var s := records + [c];
    assert s[|records|] == c;
    forall login | login in Seen(s) ensures login in Seen(records) + {c.login} {
      var i :| 0 <= i < |s| && s[i].login == login;
      if i < |records| { assert records[i] == s[i]; }
    }
    forall login | login in Seen(records) ensures login in Seen(s) {
      var i :| 0 <= i < |records| && records[i].login == login;
      assert s[i] == records[i];
    }
  }

  /** The first-seen order lists exactly the logins that occur, each once. */
  lemma {:induction false} FirstSeenIsDistinctSeen(records: seq<ContributorRecord>)
    ensures Distinct(FirstSeen(records))
    ensures forall login :: login in FirstSeen(records) <==> login in Seen(records)
  {
    if records != [] {
      var init := records[..|records| - 1];
      var c := records[|records| - 1];
      assert records == init + [c];
      FirstSeenIsDistinctSeen(init);
      SeenSnoc(init, c);
    }
  }

  /**
   * The first-seen order is what its name says: of two logins in it, the
   * earlier one has a record before any record of the later one.
   */
  lemma {:induction false} FirstSeenOrder(records: seq<ContributorRecord>, i: int, j: int)
    requires 0 <= i < j < |FirstSeen(records)|
    ensures exists p :: 0 <= p < |records| && records[p].login == FirstSeen(records)[i]
                        && forall q :: 0 <= q <= p ==> records[q].login != FirstSeen(records)[j]
  {
    var init := records[..|records| - 1];
    var c := records[|records| - 1];
    var earlier := FirstSeen(init);
    var a, b := FirstSeen(records)[i], FirstSeen(records)[j];
    if c.login in earlier {
      FirstSeenOrder(init, i, j);
      var p :| 0 <= p < |init| && init[p].login == a && forall q :: 0 <= q <= p ==> init[q].login != b;
      assert records[p] == init[p];
      assert forall q :: 0 <= q <= p ==> records[q] == init[q];
    } else if j < |earlier| {
      FirstSeenOrder(init, i, j);
      var p :| 0 <= p < |init| && init[p].login == a && forall q :: 0 <= q <= p ==> init[q].login != b;
      assert records[p] == init[p];
      assert forall q :: 0 <= q <= p ==> records[q] == init[q];
    } else {
      // b is the login of the last record, seen nowhere before it
      assert b == c.login && a == earlier[i];
      FirstSeenIsDistinctSeen(init);
      assert a in Seen(init);
      var p :| 0 <= p < |init| && init[p].login == a;
      assert records[p] == init[p];
      forall q | 0 <= q <= p ensures records[q].login != b {
        assert records[q] == init[q];
        assert init[q].login in Seen(init);
      }
    }
  }

  /** The total is the sum, over the repositories, of the login's contributions in each. */
  function PerRepository(repos: seq<Repository>, login: string): int
  {
    if repos == [] then 0 else PerRepository(repos[..|repos| - 1], login) + Total(repos[|repos| - 1], login)
  }

  lemma {:induction false} TotalConcat(a: seq<ContributorRecord>, b: seq<ContributorRecord>, login: string)
    ensures Total(a + b, login) == Total(a, login) + Total(b, login)
  {
    if b != [] {
      var init := b[..|b| - 1];
      assert (a + b)[..|a + b| - 1] == a + init;
      TotalConcat(a, init, login);
    } else {
      assert a + b == a;
    }
  }

  lemma {:induction false} TotalAcrossRepositories(repos: seq<Repository>, login: string)
    ensures Total(Flatten(repos), login) == PerRepository(repos, login)
  {
    if repos != [] {
      TotalAcrossRepositories(repos[..|repos| - 1], login);
      TotalConcat(Flatten(repos[..|repos| - 1]), repos[|repos| - 1], login);
    }
  }

  /** The profile fields kept for a login come from its last record: earlier profiles are overwritten. */
  lemma {:induction false} LastProfileIsLast(records: seq<ContributorRecord>, login: string, i: int)
    requires 0 <= i < |records| && records[i].login == login
    requires forall j :: i < j < |records| ==> records[j].login != login
    ensures LastProfile(records, login) == Some(records[i].profile)
    ensures Expected(records, login).stats == Resolve(records[i].profile)
  {
    if i < |records| - 1 {
      var init := records[..|records| - 1];
      assert init[i] == records[i];
      LastProfileIsLast(init, login, i);
    }
  }

  /** A login with no record has no profile; a login with one always has its last fetched one. */
  lemma {:induction false} LastProfileExactlyWhenSeen(records: seq<ContributorRecord>, login: string)
    ensures LastProfile(records, login).Some? <==> login in Seen(records)
  {
    if records != [] {
      var init := records[..|records| - 1];
      var c := records[|records| - 1];
      assert records == init + [c];
      SeenSnoc(init, c);
      LastProfileExactlyWhenSeen(init, login);
    }
  }

  /** When every fetch of a login returns the same profile, the kept fields are that profile's. */
  lemma {:induction false} ConsistentFetches(records: seq<ContributorRecord>, lookup: string -> Profile, login: string)
    requires forall i :: 0 <= i < |records| ==> records[i].profile == lookup(records[i].login)
    requires login in Seen(records)
    ensures Expected(records, login).stats == Resolve(lookup(login))
  {
    var init := records[..|records| - 1];
    var c := records[|records| - 1];
    if c.login != login {
      assert records == init + [c];
      SeenSnoc(init, c);
      assert forall i :: 0 <= i < |init| ==> init[i] == records[i];
      ConsistentFetches(init, lookup, login);
    }
  }

  lemma {:induction false} TotalUnseen(records: seq<ContributorRecord>, login: string)
    requires login !in Seen(records)
    ensures Total(records, login) == 0
  {
    if records != [] {
      var init := records[..|records| - 1];
      var c := records[|records| - 1];
      assert records == init + [c];
      SeenSnoc(init, c);
      TotalUnseen(init, login);
    }
  }

  /** What one more record does to the reference for a login: adds to the total, replaces the profile. */
  lemma ExpectedSnoc(records: seq<ContributorRecord>, c: ContributorRecord, login: string)
    ensures Total(records + [c], login) == Total(records, login) + (if c.login == login then c.contributions else 0)
    ensures LastProfile(records + [c], login) == if c.login == login then Some(c.profile) else LastProfile(records, login)
    ensures Expected(records + [c], login)
         == if c.login == login then Aggregate(Total(records, login) + c.contributions, Resolve(c.profile))
            else Expected(records, login)
  {
    SnocPrefix(records, c);
  }

  lemma FirstSeenSnoc(records: seq<ContributorRecord>, c: ContributorRecord)
    ensures FirstSeen(records + [c]) == if c.login in FirstSeen(records) then FirstSeen(records) else FirstSeen(records) + [c.login]
  {
    SnocPrefix(records, c);
  }

  /** Merging one more record keeps the table equal to the reference for the longer sequence. */
  lemma MergeStep(t: Table, records: seq<ContributorRecord>, c: ContributorRecord)
    requires Accounts(t, records)
    ensures Accounts(MergeRecord(t, c), records + [c])
  {
    MergeStepOrder(t, records, c);
    MergeStepKeys(t, records, c);
    MergeStepValues(t, records, c);
  }

  lemma MergeStepOrder(t: Table, records: seq<ContributorRecord>, c: ContributorRecord)
    requires Accounts(t, records)
    ensures MergeRecord(t, c).order == FirstSeen(records + [c])
  {
    FirstSeenSnoc(records, c);
    FirstSeenIsDistinctSeen(records);
  }

  lemma MergeStepKeys(t: Table, records: seq<ContributorRecord>, c: ContributorRecord)
    requires Accounts(t, records)
    ensures forall login :: login in MergeRecord(t, c).entries <==> login in Seen(records + [c])
  {
    SeenSnoc(records, c);
  }

  lemma MergeStepValues(t: Table, records: seq<ContributorRecord>, c: ContributorRecord)
    requires Accounts(t, records)
    ensures forall login :: login in MergeRecord(t, c).entries ==> MergeRecord(t, c).entries[login] == Expected(records + [c], login)
  {
    var r := MergeRecord(t, c);
    forall login | login in r.entries ensures r.entries[login] == Expected(records + [c], login) {
      ExpectedSnoc(records, c, login);
      if login == c.login && login !in t.entries {
        TotalUnseen(records, login);
      }
    }
  }

  lemma {:induction false} FlattenStep(repos: seq<Repository>, i: int)
    requires 0 <= i < |repos|
    ensures Flatten(repos[..i + 1]) == Flatten(repos[..i]) + repos[i]
  {
    assert repos[..i + 1][..i] == repos[..i];
  }

  /**
   * The merge loop of the contributor table: for each repository, for each
   * contributor record in its listing, merge the record into the table.
   * The result is the reference merge of all records: each seen login once,
   * in first-seen order, with the sum of its contributions and the profile
   * fields of its last record.
   */
  method MergeAll(repos: seq<Repository>) returns (t: Table)
    ensures t.Valid()
    ensures t.order == FirstSeen(Flatten(repos))
    ensures forall login :: login in t.entries <==> login in Seen(Flatten(repos))
    ensures forall login :: login in t.entries ==> t.entries[login] == Expected(Flatten(repos), login)
  {
    t := Empty;
    var i := 0;
    while i < |repos|
      invariant 0 <= i <= |repos|
      invariant Accounts(t, Flatten(repos[..i]))
    {
      var contributors := repos[i];
      ghost var before := Flatten(repos[..i]);
      var j := 0;
      assert before + contributors[..j] == before;
      while j < |contributors|
        invariant 0 <= j <= |contributors|
        invariant Accounts(t, before + contributors[..j])
      {
        MergeStep(t, before + contributors[..j], contributors[j]);
        ExtendPrefix(before, contributors, j);
        t := MergeRecord(t, contributors[j]);
        j := j + 1;
      }
      assert contributors[..j] == contributors;
      FlattenStep(repos, i);
      i := i + 1;
    }
    assert repos[..i] == repos;
  }

  lemma ExtendPrefix(before: seq<ContributorRecord>, s: seq<ContributorRecord>, j: int)
    requires 0 <= j < |s|
    ensures before + s[..j + 1] == (before + s[..j]) + [s[j]]
  {
    assert s[..j + 1] == s[..j] + [s[j]];
  }

  lemma {:induction false} FlattenConcat(a: seq<Repository>, b: seq<Repository>)
    ensures Flatten(a + b) == Flatten(a) + Flatten(b)
  {
    if b != [] {
      assert (a + b)[..|a + b| - 1] == a + b[..|b| - 1];
      FlattenConcat(a, b[..|b| - 1]);
    } else {
      assert a + b == a;
    }
  }

  /** A repository whose contributor listing is empty contributes no record, wherever it stands. */
  lemma EmptyRepositoryIsNeutral(repos: seq<Repository>, k: int)
    requires 0 <= k <= |repos|
    ensures Flatten(repos[..k] + [[]] + repos[k..]) == Flatten(repos)
  {
    var before, after := repos[..k], repos[k..];
    var padded := before + [[]];
    assert padded[..|padded| - 1] == before;
    assert Flatten(padded) == Flatten(before);
    FlattenConcat(padded, after);
    FlattenConcat(before, after);
    assert before + after == repos;
  }

  /** There are no records at all exactly when every repository's listing is empty. */
  lemma {:induction false} FlattenEmpty(repos: seq<Repository>)
    ensures Flatten(repos) == [] <==> forall k :: 0 <= k < |repos| ==> repos[k] == []
  {
    if repos != [] {
      var init := repos[..|repos| - 1];
      FlattenEmpty(init);
      assert forall k :: 0 <= k < |init| ==> init[k] == repos[k];
    }
  }
}
