/** The member list's search box: keeps the users one of whose four text
    fields includes the search term, case-insensitively. */
module Search {
  import opened Text
  import opened Matching

  /** The search term, lower-cased, is included in one of the user's lower-cased
      name, country, offered skill or wanted skill. */
  predicate MatchesTerm(user: User, term: string)
  {
    var t := ToLower(term);
    || Includes(ToLower(user.name), t)
    || Includes(ToLower(user.country), t)
    || Includes(ToLower(user.canTeach), t)
    || Includes(ToLower(user.wantToLearn), t)
  }

  /** `filteredUsers`: the users that match the term, in their original order. */
  function FilterUsers(users: seq<User>, term: string): (r: seq<User>)
    ensures |r| <= |users|
    ensures forall x :: x in r <==> x in users && MatchesTerm(x, term)
  {
    if users == [] then []
    else (if MatchesTerm(users[0], term) then [users[0]] else []) + FilterUsers(users[1..], term)
  }

  /** Filtering a concatenation filters each part and keeps them in order. */
  lemma {:induction false} FilterAppend(a: seq<User>, b: seq<User>, term: string)
    ensures FilterUsers(a + b, term) == FilterUsers(a, term) + FilterUsers(b, term)
    decreases |a|
  {
    if a == [] {
      assert a + b == b;
    } else {
      assert (a + b)[0] == a[0];
      assert (a + b)[1..] == a[1..] + b;
      FilterAppend(a[1..], b, term);
    }
  }

  /** The user at index `k` is kept exactly when it matches the term, in the
      place given by the users before and after it. */
  lemma FilterOrder(users: seq<User>, k: nat, term: string)
    requires k < |users|
    ensures FilterUsers(users, term)
         == FilterUsers(users[..k], term)
          + (if MatchesTerm(users[k], term) then [users[k]] else [])
          + FilterUsers(users[k + 1..], term)
  {
    var before, x, after := users[..k], users[k], users[k + 1..];
    assert users == before + [x] + after;
    FilterAppend(before + [x], after, term);
    FilterAppend(before, [x], term);
    assert FilterUsers([x], term) == (if MatchesTerm(x, term) then [x] else []) by {
      assert [x][1..] == [];
    }
  }

  /** An empty search term keeps every user. */
  lemma {:induction false} FilterEmptyTerm(users: seq<User>)
    ensures FilterUsers(users, "") == users
  {
    if users != [] {
      IncludesEmpty(ToLower(users[0].name));
      FilterEmptyTerm(users[1..]);
    }
  }
}
