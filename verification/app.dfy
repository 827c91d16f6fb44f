/** The state of the skill-exchange page: registered users, all matches found so
    far, the matches highlighted as new, and the random-match spotlight. */
module App {
  import opened Matching

  datatype Option<T> = None | Some(value: T)

  /** `Math.floor(r * len)` for a random fraction `r = num / den` in [0, 1). */
  function RandomIndex(num: nat, den: nat, len: nat): (i: nat)
    requires num < den
    ensures len > 0 ==> i < len
  {
    var p := num * len;
    if len > 0 then
      assert p < den * len by { MulStrict(num, den, len); }
      assert (p / den) * den <= p;
      LessFromMul(p / den, len, den);
      p / den
    else
      p / den
  }

  lemma MulStrict(a: nat, b: nat, c: nat)
    requires a < b && c > 0
    ensures a * c < b * c
  {
  }

  lemma MulMonotone(a: nat, b: nat, c: nat)
    requires a <= b
    ensures a * c <= b * c
  {
  }

  lemma LessFromMul(a: nat, b: nat, c: nat)
    requires a * c < b * c
    ensures a < b
  {
  }

  /** The least multiple of `len` that is at least `q`. */
  lemma CeilDiv(q: nat, len: nat) returns (num: nat)
    requires len > 0
    ensures q <= num * len < q + len
  {
    num := (q + len - 1) / len;
    assert q + len - 1 == num * len + (q + len - 1) % len;
  }

  lemma DivBetween(p: nat, den: nat, k: nat)
    requires den > 0 && k * den <= p < (k + 1) * den
    ensures p / den == k
  {
    var d := p / den;
    assert d * den <= p < (d + 1) * den by {
      assert p == d * den + p % den;
    }
    LessFromMul(k, d + 1, den);
    LessFromMul(d, k + 1, den);
  }

  /** Every index is drawn by some fraction once the fractions are at least as
      fine as the list is long. */
  lemma RandomIndexCovers(den: nat, len: nat, k: nat) returns (num: nat)
    requires len <= den && k < len
    ensures num < den && RandomIndex(num, den, len) == k
  {
    var q := k * den;
    num := CeilDiv(q, len);
    var p := num * len;
    assert (k + 1) * den == q + den;
    MulMonotone(k, len - 1, den);
    assert (len - 1) * den == len * den - den;
    assert p < den * len;
    LessFromMul(num, den, len);
    DivBetween(p, den, k);
  }

  /** `newMatches.some(n => n.id === m.id)`: whether `m` is highlighted. */
  function IsNewMatch(newMatches: seq<Match>, m: Match): (r: bool)
    ensures r <==> exists n :: n in newMatches && n.id == m.id
  {
    newMatches != [] && (newMatches[0].id == m.id || IsNewMatch(newMatches[1..], m))
  }

  /** No two users share an id. */
  predicate UserIdsDistinct(users: seq<User>)
  {
    forall i, j :: 0 <= i < j < |users| ==> users[i].id != users[j].id
  }

  /** Every stored match is sound, links two different stored users and is
      stamped with the id of one of them (the one whose submission found it);
      no two users and no two matches share an id; and each user added at most
      two matches per user registered before it. */
  ghost predicate Consistent(users: seq<User>, matches: seq<Match>)
  {
    && (forall m :: m in matches ==> WellFormed(m, users))
    && UserIdsDistinct(users)
    && IdsDistinct(matches)
    && |matches| <= |users| * (|users| - 1)
  }

  /** A stored match that links two different users of `users` and is stamped
      with one of their ids. */
  ghost predicate WellFormed(m: Match, users: seq<User>)
  {
    && Sound(m)
    && m.teacher in users && m.learner in users
    && m.teacher.id != m.learner.id
    && (m.timestamp == m.teacher.id || m.timestamp == m.learner.id)
  }

  /** The matches a new user with a fresh id discovers are well formed once it
      is registered, and are stamped with that user's id. */
  lemma FoundWellFormed(u: User, users: seq<User>, now: nat)
    requires u.id == now && forall e :: e in users ==> e.id != now
    ensures forall m :: m in Discover(u, users, now) ==>
      WellFormed(m, [u] + users) && m.timestamp == u.id
  {
    DiscoverShape(u, users, now);
    NoSelfMatch(u, users, now);
  }

  /** A fresh id keeps the user ids distinct. */
  lemma UserIdsDistinctCons(u: User, users: seq<User>)
    requires UserIdsDistinct(users) && forall e :: e in users ==> e.id != u.id
    ensures UserIdsDistinct([u] + users)
  {
    var us := [u] + users;
    forall i, j | 0 <= i < j < |us| ensures us[i].id != us[j].id {
      if i == 0 {
        assert us[j] in users;
      } else {
        assert us[i] == users[i - 1] && us[j] == users[j - 1];
      }
    }
  }

  /** Matches found now do not share an id with matches stamped earlier. */
  lemma FoundIdsFresh(u: User, users: seq<User>, matches: seq<Match>, now: nat)
    requires forall m :: m in matches ==> WellFormed(m, users)
    requires forall e :: e in users ==> e.id != now
    ensures forall x, y :: x in Discover(u, users, now) && y in matches ==> x.id != y.id
  {
    DiscoverShape(u, users, now);
    forall x, y | x in Discover(u, users, now) && y in matches ensures x.id != y.id {
      assert x.id.stamp == now;
      assert y.id.stamp == y.timestamp && y.timestamp != now;
    }
  }

  /** Putting first a new user whose id is the clock reading `now`, different
      from every registered id, and the matches it discovers keeps the store
      consistent. */
  lemma DiscoverKeepsConsistent(u: User, users: seq<User>, matches: seq<Match>, now: nat)
    requires Consistent(users, matches)
    requires u.id == now && forall e :: e in users ==> e.id != now
    ensures Consistent([u] + users, Discover(u, users, now) + matches)
  {
    var found, us := Discover(u, users, now), [u] + users;
    assert forall m :: m in found + matches ==> WellFormed(m, us) by {
      FoundWellFormed(u, users, now);
      forall m | m in matches ensures WellFormed(m, us) {
        assert WellFormed(m, users);
      }
    }
    assert IdsDistinct(found + matches) by {
      DiscoverIdsDistinct(u, users, now);
      FoundIdsFresh(u, users, matches, now);
      IdsDistinctConcat(found, matches);
    }
    UserIdsDistinctCons(u, users);
    assert |found + matches| <= |us| * (|us| - 1) by {
      DiscoverLength(u, users, now);
      var n := |users|;
      assert (n + 1) * n == n * (n - 1) + 2 * n;
    }
  }

  /** In a store without repeated match ids, the `isNewMatch` test picks out
      exactly the highlighted matches. */
  lemma HighlightExact(matches: seq<Match>, newMatches: seq<Match>, m: Match)
    requires IdsDistinct(matches)
    requires forall n :: n in newMatches ==> n in matches
    requires m in matches
    ensures IsNewMatch(newMatches, m) <==> m in newMatches
  {
    if IsNewMatch(newMatches, m) {
      var n :| n in newMatches && n.id == m.id;
      var i :| 0 <= i < |matches| && matches[i] == n;
      var j :| 0 <= j < |matches| && matches[j] == m;
      assert !(i < j) && !(j < i);
    }
  }

  class SkillSwap {
    var users: seq<User>
    var matches: seq<Match>
    var newMatches: seq<Match>
    var randomMatch: Option<Match>
    var showRandomMatch: bool

    /** The store is consistent, and the highlighted and spotlighted matches are
        stored ones. */
    ghost predicate Valid()
      reads this
    {
      && Consistent(users, matches)
      && (forall m :: m in newMatches ==> m in matches)
      && (randomMatch.Some? ==> randomMatch.value in matches)
    }

    constructor ()
      ensures Valid()
      ensures users == [] && matches == [] && newMatches == []
      ensures randomMatch == None && !showRandomMatch
    {
      users, matches, newMatches := [], [], [];
      randomMatch, showRandomMatch := None, false;
    }

    /** `handleSubmit`: an entry with an empty field is ignored; otherwise the new
        user, stamped `now`, is matched against the users registered so far and
        then put first; any matches found are put first and highlighted. */
    method Submit(name: string, country: string, canTeach: string, wantToLearn: string, now: nat)
      returns (accepted: bool)
      requires Valid()
      requires forall e :: e in users ==> e.id != now
      modifies this
      ensures Valid()
      ensures accepted <==> name != [] && country != [] && canTeach != [] && wantToLearn != []
      ensures !accepted ==>
        users == old(users) && matches == old(matches) && newMatches == old(newMatches)
      ensures accepted ==>
        var u := User(now, name, country, canTeach, wantToLearn, now);
        var found := Discover(u, old(users), now);
        && users == [u] + old(users)
        && matches == found + old(matches)
        && newMatches == (if found == [] then old(newMatches) else found)
      ensures randomMatch == old(randomMatch) && showRandomMatch == old(showRandomMatch)
      ensures forall m :: m in matches ==> (IsNewMatch(newMatches, m) <==> m in newMatches)
    {
      if name == [] || country == [] || canTeach == [] || wantToLearn == [] {
        forall m | m in matches
          ensures IsNewMatch(newMatches, m) <==> m in newMatches
        {
          HighlightExact(matches, newMatches, m);
        }
        return false;
      }
      var u := User(now, name, country, canTeach, wantToLearn, now);
      var found := FindMatches(u, users, now);
      DiscoverKeepsConsistent(u, users, matches, now);
      users := [u] + users;
      if |found| > 0 {
        matches := found + matches;
        newMatches := found;
      }
      accepted := true;
      forall m | m in matches
        ensures IsNewMatch(newMatches, m) <==> m in newMatches
      {
        HighlightExact(matches, newMatches, m);
      }
    }

    /** The timer callback that ends the highlight: nothing is new any more, and
        no match is removed. */
    method ClearNew()
      requires Valid()
      modifies this`newMatches
      ensures Valid()
      ensures newMatches == []
      ensures forall m :: !IsNewMatch(newMatches, m)
    {
      newMatches := [];
    }

    /** `handleRandomMatch`: does nothing without matches; otherwise spotlights the
        match at the index drawn from the fraction `num / den`. */
    method HandleRandomMatch(num: nat, den: nat)
      requires Valid() && num < den
      modifies this`randomMatch, this`showRandomMatch
      ensures Valid()
      ensures matches == [] ==>
        randomMatch == old(randomMatch) && showRandomMatch == old(showRandomMatch)
      ensures matches != [] ==>
        && randomMatch == Some(matches[RandomIndex(num, den, |matches|)])
        && randomMatch.value in matches
        && showRandomMatch
    {
      if |matches| == 0 {
        return;
      }
      var i := RandomIndex(num, den, |matches|);
      randomMatch := Some(matches[i]);
      showRandomMatch := true;
    }

    /** `closeRandomMatch`: hides the spotlight. */
    method CloseRandomMatch()
      requires Valid()
      modifies this`randomMatch, this`showRandomMatch
      ensures Valid()
      ensures randomMatch == None && !showRandomMatch
    {
      randomMatch, showRandomMatch := None, false;
    }
  }
}
