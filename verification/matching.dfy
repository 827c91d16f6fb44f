/** The match engine: the skill compatibility test and match discovery for a
    newly submitted user against the users already registered. */
module Matching {
  import opened Text

  /** A registered profile. `id` is the millisecond clock reading at submission;
      the source keeps its decimal rendering, which determines it uniquely. */
  datatype User = User(
    id: nat,
    name: string,
    country: string,
    canTeach: string,
    wantToLearn: string,
    timestamp: nat)

  /** The source's match id is the string `first-second-stamp`; its three parts
      are digit strings, so the triple determines it uniquely. */
  datatype MatchId = MatchId(first: nat, second: nat, stamp: nat)

  datatype Match = Match(
    id: MatchId,
    teacher: User,
    learner: User,
    skill: string,
    timestamp: nat)

  /** Two skill texts overlap when, lower-cased, either includes the other. */
  predicate Compatible(x: string, y: string)
  {
    Includes(ToLower(x), ToLower(y)) || Includes(ToLower(y), ToLower(x))
  }

  /** The test is symmetric in its two arguments. */
  lemma CompatibleSymmetric(x: string, y: string)
    ensures Compatible(x, y) == Compatible(y, x)
  {
  }

  /** An empty skill text is compatible with everything; nothing special-cases it. */
  lemma CompatibleEmpty(y: string)
    ensures Compatible("", y) && Compatible(y, "")
  {
    IncludesEmpty(ToLower(y));
  }

  /** Every skill text is compatible with itself. */
  lemma CompatibleReflexive(x: string)
    ensures Compatible(x, x)
  {
    IncludesSelf(ToLower(x));
  }

  /** Only the lower-cased texts matter. */
  lemma CompatibleCaseInsensitive(x: string, y: string)
    ensures Compatible(ToLower(x), y) == Compatible(x, y)
  {
    ToLowerIdempotent(x);
  }

  /** The existing user `e` can teach what the new user `u` wants to learn. */
  predicate ExistingTeaches(u: User, e: User)
  {
    Compatible(u.wantToLearn, e.canTeach)
  }

  /** The new user `u` can teach what the existing user `e` wants to learn. */
  predicate NewTeaches(u: User, e: User)
  {
    Compatible(e.wantToLearn, u.canTeach)
  }

  /** The match in which the existing user `e` teaches the new user `u`. */
  function FromExisting(u: User, e: User, now: nat): Match
  {
    Match(MatchId(u.id, e.id, now), e, u, e.canTeach, now)
  }

  /** The match in which the new user `u` teaches the existing user `e`. */
  function FromNew(u: User, e: User, now: nat): Match
  {
    Match(MatchId(e.id, u.id, now), u, e, u.canTeach, now)
  }

  /** What one existing user contributes: the match where it teaches first,
      then the match where it learns, each only when its test passes. */
  function PairMatches(u: User, e: User, now: nat): seq<Match>
  {
    (if ExistingTeaches(u, e) then [FromExisting(u, e, now)] else [])
    + (if NewTeaches(u, e) then [FromNew(u, e, now)] else [])
  }

  /** All matches a new user `u` creates against `existing`, in the order of
      `existing`. */
  function Discover(u: User, existing: seq<User>, now: nat): seq<Match>
    decreases |existing|
  {
    if existing == [] then []
    else Discover(u, existing[..|existing| - 1], now) + PairMatches(u, existing[|existing| - 1], now)
  }

  /** A match is sound when its skill is the teacher's offer, that offer is
      compatible with what the learner wants, and its id names the learner,
      then the teacher, then the discovery time. */
  predicate Sound(m: Match)
  {
    && m.skill == m.teacher.canTeach
    && Compatible(m.learner.wantToLearn, m.teacher.canTeach)
    && m.id == MatchId(m.learner.id, m.teacher.id, m.timestamp)
  }

  /** `findMatches`: walks the existing users once, pushing the matches each
      one contributes. */
  method FindMatches(u: User, existing: seq<User>, now: nat) returns (found: seq<Match>)
    ensures found == Discover(u, existing, now)
  {
    found := [];
    for i := 0 to |existing|
      invariant found == Discover(u, existing[..i], now)
    {
      var e := existing[i];
      if Compatible(u.wantToLearn, e.canTeach) {
        found := found + [Match(MatchId(u.id, e.id, now), e, u, e.canTeach, now)];
      }
      if Compatible(e.wantToLearn, u.canTeach) {
        found := found + [Match(MatchId(e.id, u.id, now), u, e, u.canTeach, now)];
      }
      assert existing[..i + 1][..i] == existing[..i];
    }
    assert existing[..|existing|] == existing;
  }

  /** Discovery against a concatenation is discovery against each part, in order. */
  lemma {:induction false} DiscoverAppend(u: User, a: seq<User>, b: seq<User>, now: nat)
    ensures Discover(u, a + b, now) == Discover(u, a, now) + Discover(u, b, now)
    decreases |b|
  {
    if b == [] {
      assert a + b == a;
    } else {
      var b' := b[..|b| - 1];
      assert (a + b)[..|a + b| - 1] == a + b';
      assert (a + b)[|a + b| - 1] == b[|b| - 1];
      DiscoverAppend(u, a, b', now);
    }
  }

  /** Output order follows `existing`: the matches of the user at index `j`
      sit between those of the users before and after it. */
  lemma DiscoverOrder(u: User, existing: seq<User>, j: nat, now: nat)
    requires j < |existing|
    ensures Discover(u, existing, now)
         == Discover(u, existing[..j], now)
          + PairMatches(u, existing[j], now)
          + Discover(u, existing[j + 1..], now)
  {
    assert existing == existing[..j] + [existing[j]] + existing[j + 1..];
    DiscoverAppend(u, existing[..j] + [existing[j]], existing[j + 1..], now);
    DiscoverAppend(u, existing[..j], [existing[j]], now);
    assert [existing[j]][..0] == [];
  }

  /** No existing users, no matches: the new user is never compared with itself. */
  lemma DiscoverNone(u: User, now: nat)
    ensures Discover(u, [], now) == []
  {
  }

  /** Each existing user contributes at most two matches. */
  lemma {:induction false} DiscoverLength(u: User, existing: seq<User>, now: nat)
    ensures |Discover(u, existing, now)| <= 2 * |existing|
    decreases |existing|
  {
    if existing != [] {
      DiscoverLength(u, existing[..|existing| - 1], now);
    }
  }

  /** Every discovered match has one of the two shapes, for an existing user
      whose test passed, and is sound. */
  lemma {:induction false} DiscoverShape(u: User, existing: seq<User>, now: nat)
    ensures forall m :: m in Discover(u, existing, now) ==>
      && Sound(m)
      && m.timestamp == now
      && ((m.learner == u && m.teacher in existing && m == FromExisting(u, m.teacher, now))
          || (m.teacher == u && m.learner in existing && m == FromNew(u, m.learner, now)))
    decreases |existing|
  {
    if existing != [] {
      var init := existing[..|existing| - 1];
      DiscoverShape(u, init, now);
      assert forall x :: x in init ==> x in existing;
    }
  }

  /** The match where `e` teaches `u` is found exactly when `e` is an existing
      user and `u`'s wish and `e`'s offer overlap. */
  lemma {:induction false} FromExistingFound(u: User, e: User, existing: seq<User>, now: nat)
    ensures FromExisting(u, e, now) in Discover(u, existing, now)
        <==> e in existing && ExistingTeaches(u, e)
    decreases |existing|
  {
    if existing != [] {
      var init, last := existing[..|existing| - 1], existing[|existing| - 1];
      FromExistingFound(u, e, init, now);
      assert existing == init + [last];
    }
  }

  /** The match where `u` teaches `e` is found exactly when `e` is an existing
      user and `e`'s wish and `u`'s offer overlap. */
  lemma {:induction false} FromNewFound(u: User, e: User, existing: seq<User>, now: nat)
    ensures FromNew(u, e, now) in Discover(u, existing, now)
        <==> e in existing && NewTeaches(u, e)
    decreases |existing|
  {
    if existing != [] {
      var init, last := existing[..|existing| - 1], existing[|existing| - 1];
      FromNewFound(u, e, init, now);
      assert existing == init + [last];
    }
  }

  /** When no existing user carries the new user's id, no match pairs a user
      with itself. */
  lemma NoSelfMatch(u: User, existing: seq<User>, now: nat)
    requires forall e :: e in existing ==> e.id != u.id
    ensures forall m :: m in Discover(u, existing, now) ==> m.teacher.id != m.learner.id
  {
    DiscoverShape(u, existing, now);
  }

  /** No two matches of `ms` share an id. */
  predicate IdsDistinct(ms: seq<Match>)
  {
    forall i, j :: 0 <= i < j < |ms| ==> ms[i].id != ms[j].id
  }

  lemma IdsDistinctConcat(a: seq<Match>, b: seq<Match>)
    requires IdsDistinct(a) && IdsDistinct(b)
    requires forall x, y :: x in a && y in b ==> x.id != y.id
    ensures IdsDistinct(a + b)
  {
    var ab := a + b;
    forall i, j | 0 <= i < j < |ab|
      ensures ab[i].id != ab[j].id
    {
      if j < |a| {
        assert ab[i] == a[i] && ab[j] == a[j];
      } else if i < |a| {
        assert ab[i] in a && ab[j] in b;
      } else {
        assert ab[i] == b[i - |a|] && ab[j] == b[j - |a|];
      }
    }
  }

  /** When the existing users' ids are distinct from each other and from the
      new user's, the discovered matches have pairwise distinct ids. */
  lemma {:induction false} DiscoverIdsDistinct(u: User, existing: seq<User>, now: nat)
    requires forall e :: e in existing ==> e.id != u.id
    requires forall i, j :: 0 <= i < j < |existing| ==> existing[i].id != existing[j].id
    ensures IdsDistinct(Discover(u, existing, now))
    decreases |existing|
  {
    if existing != [] {
      var init, last := existing[..|existing| - 1], existing[|existing| - 1];
      DiscoverIdsDistinct(u, init, now);
      DiscoverShape(u, init, now);
      var before, pair := Discover(u, init, now), PairMatches(u, last, now);
      assert last in existing;
      assert forall x :: x in init ==> x.id != last.id by {
        forall x | x in init ensures x.id != last.id {
          var k :| 0 <= k < |init| && init[k] == x;
          assert existing[k] == x;
        }
      }
      assert forall m :: m in pair ==> m.id.first == last.id || m.id.second == last.id;
      assert forall m :: m in before ==> m.id.first != last.id && m.id.second != last.id;
      IdsDistinctConcat(before, pair);
    }
  }

  /** Two users who want what the other teaches produce exactly two matches,
      the one where the existing user teaches first. */
  lemma MutualTrade(u: User, e: User, now: nat)
    requires u.wantToLearn == e.canTeach && e.wantToLearn == u.canTeach
    ensures Discover(u, [e], now) == [FromExisting(u, e, now), FromNew(u, e, now)]
  {
    CompatibleReflexive(e.canTeach);
    CompatibleReflexive(u.canTeach);
    assert [e][..0] == [];
  }
}
