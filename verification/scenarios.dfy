/** Worked cases of the match engine with concrete profiles. */
module Scenarios {
  import opened Text
  import opened Matching

  lemma LowerPython()
    ensures ToLower("PYTHON") == "python" && ToLower("python") == "python"
  {
    var low := ToLower("PYTHON");
    assert low[0] == 'p' && low[1] == 'y' && low[2] == 't';
    assert low[3] == 'h' && low[4] == 'o' && low[5] == 'n';
    ToLowerUnchanged("python");
  }

  /** The skill test ignores case: "python" overlaps "PYTHON Programming". */
  lemma PythonMatchesUpperCase(wanted: string, offered: string)
    requires wanted == "python" && offered == "PYTHON Programming"
    ensures Compatible(wanted, offered)
  {
    var rest := " Programming";
    assert offered == "PYTHON" + rest;
    ToLowerAppend("PYTHON", rest);
    LowerPython();
    IncludesFromOccurs("python" + ToLower(rest), "python", 0);
  }

  /** Lower-casing a capitalised word changes only its first letter. */
  lemma LowerCapitalised(s: string)
    requires |s| > 0 && 'A' <= s[0] <= 'Z'
    requires forall i :: 1 <= i < |s| ==> !('A' <= s[i] <= 'Z')
    ensures ToLower(s) == [LowerChar(s[0])] + s[1..]
  {
    ToLowerUnchanged(s[1..]);
  }

  /** Two skill texts are incompatible when each, lower-cased, is either longer
      than the other or contains a letter the other lacks. */
  lemma Incompatible(x: string, y: string, cx: char, cy: char)
    requires |ToLower(x)| < |ToLower(y)| || (cy in ToLower(y) && cy !in ToLower(x))
    requires |ToLower(y)| < |ToLower(x)| || (cx in ToLower(x) && cx !in ToLower(y))
    ensures !Compatible(x, y)
  {
    if cx in ToLower(x) && cx !in ToLower(y) {
      MissingCharExcludes(ToLower(y), ToLower(x), cx);
    }
    if cy in ToLower(y) && cy !in ToLower(x) {
      MissingCharExcludes(ToLower(x), ToLower(y), cy);
    }
  }

  /** A capitalised wish fails the test against a shorter capitalised offer
      that has a lower-case letter the wish lacks. */
  lemma CapitalisedIncompatible(wish: string, offer: string, c: char)
    requires |wish| > 0 && 'A' <= wish[0] <= 'Z'
    requires forall i :: 1 <= i < |wish| ==> !('A' <= wish[i] <= 'Z')
    requires |offer| > 0 && 'A' <= offer[0] <= 'Z'
    requires forall i :: 1 <= i < |offer| ==> !('A' <= offer[i] <= 'Z')
    requires |offer| < |wish|
    requires c in offer[1..] && c !in wish[1..] && c != LowerChar(wish[0])
    ensures !Compatible(wish, offer)
  {
    LowerCapitalised(wish);
    LowerCapitalised(offer);
    Incompatible(wish, offer, c, c);
  }

  /** A profile teaching Yoga and wanting Photography and one teaching Cooking
      and wanting Painting produce no match in either direction. */
  lemma NoAccidentalMatch(a: User, c: User, now: nat)
    requires a.canTeach == "Yoga" && a.wantToLearn == "Photography"
    requires c.canTeach == "Cooking" && c.wantToLearn == "Painting"
    ensures Discover(c, [a], now) == []
  {
    CapitalisedIncompatible(c.wantToLearn, a.canTeach, 'o');
    CapitalisedIncompatible(a.wantToLearn, c.canTeach, 'k');
    assert [a][..0] == [];
  }
}
