/**
 * The ranking: the table's items sorted by total contributions, largest
 * first, by a stable sort, so items with equal totals keep their relative
 * order. The sort is modelled as insertion into a sorted prefix; the lemma
 * `StableSortIsUnique` shows that every stable descending sort of the same
 * items gives this same sequence.
 */
module Ranking {
  import opened Records

  function Key(e: Entry): int
  {
    e.agg.contributions
  }

  ghost predicate SortedDesc(s: seq<Entry>)
  {
    forall i, j :: 0 <= i < j < |s| ==> Key(s[i]) >= Key(s[j])
  }

  /** The items of `s` whose total is `c`, in their order in `s`. */
  function WithKey(s: seq<Entry>, c: int): seq<Entry>
  {
    if s == [] then [] else (if Key(s[0]) == c then [s[0]] else []) + WithKey(s[1..], c)
  }

  /** The set of logins of `s`. */
  ghost function Logins(s: seq<Entry>): set<string>
  {
    set e | e in s :: e.login
  }

  ghost predicate UniqueLogins(s: seq<Entry>)
  {
    forall i, j :: 0 <= i < j < |s| ==> s[i].login != s[j].login
  }

  /**
   * Place `e` into the descending sequence `sorted` after every item whose
   * total is at least `e`'s, so that it follows the items equal to it.
   */
  function Insert(sorted: seq<Entry>, e: Entry): (r: seq<Entry>)
    ensures multiset(r) == multiset(sorted) + multiset{e}
    ensures r[0] == e || (sorted != [] && r[0] == sorted[0])
  {
    if sorted == [] then [e]
    else if Key(sorted[0]) >= Key(e) then
      assert sorted == [sorted[0]] + sorted[1..];
      [sorted[0]] + Insert(sorted[1..], e)
    else
      [e] + sorted
  }

  lemma {:induction false} InsertSorted(sorted: seq<Entry>, e: Entry)
    requires SortedDesc(sorted)
    ensures SortedDesc(Insert(sorted, e))
  {
    if sorted != [] {
      var r := Insert(sorted, e);
      if Key(sorted[0]) >= Key(e) {
        var rest := Insert(sorted[1..], e);
        assert r == [sorted[0]] + rest;
        InsertSorted(sorted[1..], e);
        assert |sorted| > 1 ==> Key(sorted[0]) >= Key(sorted[1]);
        assert Key(sorted[0]) >= Key(rest[0]);
        forall i, j | 0 <= i < j < |r| ensures Key(r[i]) >= Key(r[j]) {
          if i == 0 {
            assert r[j] == rest[j - 1];
            if j > 1 { assert Key(rest[0]) >= Key(rest[j - 1]); }
          } else {
            assert r[i] == rest[i - 1] && r[j] == rest[j - 1];
          }
        }
      } else {
        assert r == [e] + sorted;
        forall i, j | 0 <= i < j < |r| ensures Key(r[i]) >= Key(r[j]) {
          if i == 0 {
            assert r[j] == sorted[j - 1];
            if j > 1 { assert Key(sorted[0]) >= Key(sorted[j - 1]); }
          } else {
            assert r[i] == sorted[i - 1] && r[j] == sorted[j - 1];
          }
        }
      }
    }
  }

  /** `sorted(items, key=contributions, reverse=True)`. */
  function Rank(items: seq<Entry>): (r: seq<Entry>)
    ensures multiset(r) == multiset(items)
    ensures SortedDesc(r)
  {
    if items == [] then []
    else
      var init := items[..|items| - 1];
      assert items == init + [items[|items| - 1]];
      InsertSorted(Rank(init), items[|items| - 1]);
      Insert(Rank(init), items[|items| - 1])
  }

  lemma {:induction false} WithKeyConcat(a: seq<Entry>, b: seq<Entry>, c: int)
    ensures WithKey(a + b, c) == WithKey(a, c) + WithKey(b, c)
  {
    if a != [] {
      assert (a + b)[1..] == a[1..] + b;
      WithKeyConcat(a[1..], b, c);
    } else {
      assert a + b == b;
    }
  }

  lemma {:induction false} WithKeyMembers(s: seq<Entry>, c: int)
    ensures forall x :: x in WithKey(s, c) ==> x in s && Key(x) == c
  {
    if s != [] {
      WithKeyMembers(s[1..], c);
    }
  }

  lemma {:induction false} WithKeyBelowAll(s: seq<Entry>, c: int)
    requires forall x :: x in s ==> Key(x) < c
    ensures WithKey(s, c) == []
  {
    if s != [] {
      assert s[0] in s;
      WithKeyBelowAll(s[1..], c);
    }
  }

  lemma SortedTail(s: seq<Entry>)
    requires s != [] && SortedDesc(s)
    ensures SortedDesc(s[1..])
  {
    forall i, j | 0 <= i < j < |s| - 1 ensures Key(s[1..][i]) >= Key(s[1..][j]) {
      assert s[1..][i] == s[i + 1] && s[1..][j] == s[j + 1];
    }
  }

  lemma WithKeyCons(x: Entry, s: seq<Entry>, c: int)
    ensures WithKey([x] + s, c) == (if Key(x) == c then [x] else []) + WithKey(s, c)
  {
    assert ([x] + s)[1..] == s;
  }

  lemma BelowHead(sorted: seq<Entry>, c: int)
    requires sorted != [] && SortedDesc(sorted) && Key(sorted[0]) < c
    ensures WithKey(sorted, c) == []
  {
    forall x | x in sorted ensures Key(x) < c {
      var k :| 0 <= k < |sorted| && sorted[k] == x;
      assert Key(sorted[0]) >= Key(sorted[k]);
    }
    WithKeyBelowAll(sorted, c);
  }

  lemma InsertAfterHead(sorted: seq<Entry>, e: Entry)
    requires sorted != [] && Key(sorted[0]) >= Key(e)
    ensures Insert(sorted, e) == [sorted[0]] + Insert(sorted[1..], e)
  {
  }

  lemma InsertBeforeHead(sorted: seq<Entry>, e: Entry)
    requires sorted != [] && Key(sorted[0]) < Key(e)
    ensures Insert(sorted, e) == [e] + sorted
  {
  }

  /** Inserting into a descending sequence puts `e` after every earlier item with the same total. */
  lemma {:induction false} InsertWithKey(sorted: seq<Entry>, e: Entry, c: int)
    requires SortedDesc(sorted)
    ensures WithKey(Insert(sorted, e), c) == WithKey(sorted, c) + (if Key(e) == c then [e] else [])
  {
    if sorted == [] {
      WithKeyCons(e, [], c);
    } else if Key(sorted[0]) >= Key(e) {
      SortedTail(sorted);
      InsertWithKey(sorted[1..], e, c);
      InsertWithKeyAfterHead(sorted, e, c);
    } else {
      InsertWithKeyBeforeHead(sorted, e, c);
    }
  }

  lemma InsertWithKeyAfterHead(sorted: seq<Entry>, e: Entry, c: int)
    requires sorted != [] && Key(sorted[0]) >= Key(e)
    requires WithKey(Insert(sorted[1..], e), c) == WithKey(sorted[1..], c) + (if Key(e) == c then [e] else [])
    ensures WithKey(Insert(sorted, e), c) == WithKey(sorted, c) + (if Key(e) == c then [e] else [])
  {
    var tail := if Key(e) == c then [e] else [];
    var head, rest := sorted[0], sorted[1..];
    var h := if Key(head) == c then [head] else [];
    InsertAfterHead(sorted, e);
    WithKeyCons(head, Insert(rest, e), c);
    WithKeyCons(head, rest, c);
    assert sorted == [head] + rest;
    calc {
      WithKey(Insert(sorted, e), c);
      h + WithKey(Insert(rest, e), c);
      h + (WithKey(rest, c) + tail);
      { SeqAssoc(h, WithKey(rest, c), tail); }
      (h + WithKey(rest, c)) + tail;
      WithKey(sorted, c) + tail;
    }
  }

  lemma InsertWithKeyBeforeHead(sorted: seq<Entry>, e: Entry, c: int)
    requires sorted != [] && SortedDesc(sorted) && Key(sorted[0]) < Key(e)
    ensures WithKey(Insert(sorted, e), c) == WithKey(sorted, c) + (if Key(e) == c then [e] else [])
  {
    var tail := if Key(e) == c then [e] else [];
    InsertBeforeHead(sorted, e);
    WithKeyCons(e, sorted, c);
    if Key(e) == c {
      BelowHead(sorted, c);
      assert WithKey(sorted, c) + tail == tail;
    } else {
      assert WithKey(sorted, c) + tail == WithKey(sorted, c);
    }
  }

  lemma SeqAssoc(a: seq<Entry>, b: seq<Entry>, c: seq<Entry>)
    ensures a + (b + c) == (a + b) + c
  {
  }

  /** Stability: for every total, the items with that total keep their input order. */
  lemma {:induction false} RankIsStable(items: seq<Entry>, c: int)
    ensures WithKey(Rank(items), c) == WithKey(items, c)
  {
    if items != [] {
      var init, last := items[..|items| - 1], items[|items| - 1];
      var tail := if Key(last) == c then [last] else [];
      assert items == init + [last];
      assert Rank(items) == Insert(Rank(init), last);
      RankIsStable(init, c);
      InsertWithKey(Rank(init), last, c);
      WithKeyConcat(init, [last], c);
      assert [last][1..] == [];
      assert WithKey([last], c) == tail + WithKey([], c);
    }
  }

  lemma {:induction false} WithKeyOrigin(s: seq<Entry>, c: int, j: int) returns (q: int)
    requires 0 <= j < |WithKey(s, c)|
    ensures 0 <= q < |s| && s[q] == WithKey(s, c)[j]
  {
    WithKeyMembers(s, c);
    assert WithKey(s, c)[j] in WithKey(s, c);
    q :| 0 <= q < |s| && s[q] == WithKey(s, c)[j];
  }

  lemma {:induction false} WithKeyOrigins(s: seq<Entry>, c: int, i: int, j: int) returns (p: int, q: int)
    requires 0 <= i < j < |WithKey(s, c)|
    ensures 0 <= p < q < |s| && s[p] == WithKey(s, c)[i] && s[q] == WithKey(s, c)[j]
  {
    var w, w' := WithKey(s, c), WithKey(s[1..], c);
    WithKeyCons(s[0], s[1..], c);
    assert s == [s[0]] + s[1..];
    if Key(s[0]) == c {
      assert w == [s[0]] + w';
      if i == 0 {
        var q' := WithKeyOrigin(s[1..], c, j - 1);
        p, q := 0, q' + 1;
      } else {
        var p', q' := WithKeyOrigins(s[1..], c, i - 1, j - 1);
        p, q := p' + 1, q' + 1;
      }
    } else {
      var p', q' := WithKeyOrigins(s[1..], c, i, j);
      p, q := p' + 1, q' + 1;
    }
  }

  /** The item at position `i` of `s` sits in `WithKey(s, c)` after those with total `c` before it. */
  lemma WithKeyPosition(s: seq<Entry>, i: int)
    requires 0 <= i < |s|
    ensures |WithKey(s[..i], Key(s[i]))| < |WithKey(s, Key(s[i]))|
    ensures WithKey(s, Key(s[i]))[|WithKey(s[..i], Key(s[i]))|] == s[i]
  {
    var c := Key(s[i]);
    assert s == s[..i] + ([s[i]] + s[i + 1..]);
    WithKeyConcat(s[..i], [s[i]] + s[i + 1..], c);
    WithKeyCons(s[i], s[i + 1..], c);
  }

  lemma PositionsIncrease(s: seq<Entry>, i: int, j: int)
    requires 0 <= i < j <= |s|
    ensures |WithKey(s[..i], Key(s[i]))| < |WithKey(s[..j], Key(s[i]))|
  {
    var c := Key(s[i]);
    assert s[..j] == s[..i] + ([s[i]] + s[i + 1..j]);
    WithKeyConcat(s[..i], [s[i]] + s[i + 1..j], c);
    WithKeyCons(s[i], s[i + 1..j], c);
  }

  /** Two ranked items with equal totals come from input positions in the same order. */
  lemma RankTiesKeepInputOrder(items: seq<Entry>, i: int, j: int)
    requires 0 <= i < j < |Rank(items)|
    requires Key(Rank(items)[i]) == Key(Rank(items)[j])
    ensures exists p, q :: 0 <= p < q < |items| && items[p] == Rank(items)[i] && items[q] == Rank(items)[j]
  {
    var r := Rank(items);
    var c := Key(r[i]);
    WithKeyPosition(r, i);
    WithKeyPosition(r, j);
    PositionsIncrease(r, i, j);
    var i', j' := |WithKey(r[..i], c)|, |WithKey(r[..j], c)|;
    RankIsStable(items, c);
    assert WithKey(items, c)[i'] == r[i] && WithKey(items, c)[j'] == r[j];
    var p, q := WithKeyOrigins(items, c, i', j');
  }

  /** Items with distinct logins are ranked with distinct logins, and no login is added or lost. */
  lemma RankKeepsLogins(items: seq<Entry>)
    requires UniqueLogins(items)
    ensures UniqueLogins(Rank(items))
    ensures Logins(Rank(items)) == Logins(items)
  {
    var r := Rank(items);
    assert forall x :: x in r <==> x in items by {
      forall x ensures x in r <==> x in items {
        assert x in r <==> x in multiset(r);
        assert x in items <==> x in multiset(items);
      }
    }
    forall i, j | 0 <= i < j < |r| ensures r[i].login != r[j].login {
      assert r[i] in items && r[j] in items;
      var p :| 0 <= p < |items| && items[p] == r[i];
      var q :| 0 <= q < |items| && items[q] == r[j];
      if p == q {
        // r[i] == r[j] would occur twice in r, hence twice in items
        assert r[i] == r[j];
        TwiceInMultiset(r, i, j);
        OnceInMultiset(items, p);
        assert false;
      }
    }
  }

  lemma {:induction false} TwiceInMultiset(s: seq<Entry>, i: int, j: int)
    requires 0 <= i < j < |s| && s[i] == s[j]
    ensures multiset(s)[s[i]] >= 2
  {
    assert s == s[..i] + [s[i]] + s[i + 1..j] + [s[j]] + s[j + 1..];
  }

  lemma {:induction false} OnceInMultiset(s: seq<Entry>, p: int)
    requires UniqueLogins(s) && 0 <= p < |s|
    ensures multiset(s)[s[p]] == 1
  {
    var x := s[p];
    assert s == s[..p] + [x] + s[p + 1..];
    assert x !in s[..p] by {
      forall k | 0 <= k < p ensures s[..p][k] != x { assert s[k].login != s[p].login; }
    }
    assert x !in s[p + 1..] by {
      forall k | p + 1 <= k < |s| ensures s[k] != x { assert s[k].login != s[p].login; }
    }
  }

  lemma FirstWithKeyIsHead(s: seq<Entry>)
    requires s != []
    ensures WithKey(s, Key(s[0])) == [s[0]] + WithKey(s[1..], Key(s[0]))
  {
  }

  /** No item of a descending sequence has a larger total than its first. */
  lemma KeyAtMostHead(s: seq<Entry>, c: int)
    requires s != [] && SortedDesc(s) && WithKey(s, c) != []
    ensures c <= Key(s[0])
  {
    WithKeyMembers(s, c);
    var x := WithKey(s, c)[0];
    assert x in WithKey(s, c);
    var k :| 0 <= k < |s| && s[k] == x;
    assert Key(s[0]) >= Key(s[k]);
  }

  lemma SameHeads(a: seq<Entry>, b: seq<Entry>)
    requires a != [] && b != [] && SortedDesc(a) && SortedDesc(b)
    requires forall c :: WithKey(a, c) == WithKey(b, c)
    ensures a[0] == b[0]
  {
    FirstWithKeyIsHead(a);
    FirstWithKeyIsHead(b);
    KeyAtMostHead(b, Key(a[0]));
    KeyAtMostHead(a, Key(b[0]));
    assert WithKey(a, Key(a[0]))[0] == a[0];
    assert WithKey(b, Key(b[0]))[0] == b[0];
  }

  lemma SameTails(a: seq<Entry>, b: seq<Entry>, c: int)
    requires a != [] && b != [] && a[0] == b[0]
    requires WithKey(a, c) == WithKey(b, c)
    ensures WithKey(a[1..], c) == WithKey(b[1..], c)
  {
    var head := if Key(a[0]) == c then [a[0]] else [];
    assert WithKey(a, c) == head + WithKey(a[1..], c);
    assert WithKey(b, c) == head + WithKey(b[1..], c);
    assert WithKey(a[1..], c) == WithKey(a, c)[|head|..];
    assert WithKey(b[1..], c) == WithKey(b, c)[|head|..];
  }

  /**
   * A stable descending sort has one result: two descending sequences with
   * the same items of each total, in the same order, are equal.
   */
  lemma {:induction false} SortedWithSameKeysEqual(a: seq<Entry>, b: seq<Entry>)
    requires SortedDesc(a) && SortedDesc(b)
    requires forall c :: WithKey(a, c) == WithKey(b, c)
    ensures a == b
  {
    if a == [] || b == [] {
      // the first item of a non-empty one would have no partner in the other
      if a != [] { FirstWithKeyIsHead(a); assert false; }
      if b != [] { FirstWithKeyIsHead(b); assert false; }
    } else {
      SameHeads(a, b);
      forall c ensures WithKey(a[1..], c) == WithKey(b[1..], c) {
        SameTails(a, b, c);
      }
      SortedTail(a);
      SortedTail(b);
      SortedWithSameKeysEqual(a[1..], b[1..]);
      assert a == [a[0]] + a[1..] && b == [b[0]] + b[1..];
    }
  }

  /** Any descending sequence that keeps the input order among equal totals is the ranking. */
  lemma StableSortIsUnique(items: seq<Entry>, r: seq<Entry>)
    requires SortedDesc(r)
    requires forall c :: WithKey(r, c) == WithKey(items, c)
    ensures r == Rank(items)
  {
    forall c ensures WithKey(r, c) == WithKey(Rank(items), c) {
      RankIsStable(items, c);
    }
    SortedWithSameKeysEqual(r, Rank(items));
  }
}
