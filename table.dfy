/**
 * The login-keyed contributor table: a `defaultdict` whose default factory
 * builds the zero record. A Python dict iterates in insertion order, so the
 * table keeps, beside the map, the logins in the order they were inserted.
 */
module ContributorTable {
  import opened Records

  ghost predicate Distinct(s: seq<string>)
  {
    forall i, j :: 0 <= i < j < |s| ==> s[i] != s[j]
  }

  datatype Table = Table(entries: map<string, Aggregate>, order: seq<string>)
  {
    /** Every key is listed exactly once in insertion order, and nothing else is. */
    ghost predicate Valid()
    {
      && Distinct(order)
      && (forall login :: login in entries <==> login in order)
    }
  }

  const Empty := Table(map[], [])

  /**
   * `all_contributors[login]` on a defaultdict: an existing login is left as it
   * is; a new one is inserted with the default record at the end of the order.
   */
  function Touch(t: Table, login: string): (r: Table)
    requires t.Valid()
    ensures r.Valid()
    ensures login in r.entries
    ensures login in t.entries ==> r == t
    ensures login !in t.entries ==>
      r.entries == t.entries[login := DefaultAggregate] && r.order == t.order + [login]
  {
    if login in t.entries then t
    else Table(t.entries[login := DefaultAggregate], t.order + [login])
  }

  /**
   * One contributor record merged into the table: the login's contribution
   * count is added to its running total (starting from zero for a new login),
   * and its profile fields are overwritten by what this record's profile fetch
   * returned. No other login's record changes.
   */
  function MergeRecord(t: Table, c: ContributorRecord): (r: Table)
    requires t.Valid()
    ensures r.Valid()
    ensures forall login :: login in r.entries <==> login in t.entries || login == c.login
    ensures r.entries[c.login].contributions
         == (if c.login in t.entries then t.entries[c.login].contributions else 0) + c.contributions
    ensures r.entries[c.login].stats == Resolve(c.profile)
    ensures forall login :: login in t.entries && login != c.login ==> r.entries[login] == t.entries[login]
    ensures r.order == if c.login in t.entries then t.order else t.order + [c.login]
  {
    var t1 := Touch(t, c.login);
    var a := t1.entries[c.login];
    var a1 := a.(contributions := a.contributions + c.contributions);
    var a2 := a1.(stats := Resolve(c.profile));
    t1.(entries := t1.entries[c.login := a2])
  }

  /**
   * `all_contributors.items()`: the table's entries in insertion order. Every
   * key of the table occurs exactly once, paired with its record.
   */
  function Items(t: Table): (items: seq<Entry>)
    requires t.Valid()
    ensures |items| == |t.order|
    ensures forall i :: 0 <= i < |items| ==> items[i] == Entry(t.order[i], t.entries[t.order[i]])
    ensures forall i, j :: 0 <= i < j < |items| ==> items[i].login != items[j].login
    ensures forall login :: login in t.entries ==>
      exists i :: 0 <= i < |items| && items[i] == Entry(login, t.entries[login])
  {
    seq(|t.order|, i requires 0 <= i < |t.order| => Entry(t.order[i], t.entries[t.order[i]]))
  }
}
