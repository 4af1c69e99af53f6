/**
 * The scheme search of the government-schemes view
 * (`frontend/src/components/GovernmentSchemes.tsx`): a constant list of
 * four schemes filtered, in order, by a case-insensitive substring test of
 * the search term against each title and category.
 */
module Schemes {

  import opened Text

  datatype Scheme = Scheme(title: string, category: string, benefit: string, eligibility: string)

  /** `SCHEMES`. */
  const AllSchemes: seq<Scheme> := [
    Scheme("PM-Kisan Samman Nidhi", "Direct Income Support",
           "\U{20B9}6,000 per year in 3 installments", "All landholding farmer families"),
    Scheme("PM Fasal Bima Yojana", "Crop Insurance",
           "Full insurance coverage against failure", "All farmers including sharecroppers"),
    Scheme("Kisan Credit Card (KCC)", "Credit & Loans",
           "Low-interest loans up to \U{20B9}3 Lakh", "Individual/Joint land owners"),
    Scheme("Soil Health Card Scheme", "Soil Testing",
           "Free soil nutrient assessment", "Periodic testing for all farmers")
  ]

  /**
   * The filter's test, with `toLowerCase` as the character mapping `lower`:
   * the lowercased term occurs in the lowercased title or category.
   */
  predicate Matches(s: Scheme, term: string, lower: char -> char) {
    Contains(MapChars(lower, s.title), MapChars(lower, term))
    || Contains(MapChars(lower, s.category), MapChars(lower, term))
  }

  /** `Array.prototype.filter` with that test. */
  function Filter(xs: seq<Scheme>, term: string, lower: char -> char): (r: seq<Scheme>)
    ensures |r| <= |xs|
    ensures forall s :: s in r <==> s in xs && Matches(s, term, lower)
  {
    if |xs| == 0 then []
    else (if Matches(xs[0], term, lower) then [xs[0]] else []) + Filter(xs[1..], term, lower)
  }

  /** `filtered`: the schemes shown for a search term. */
  function Filtered(term: string, lower: char -> char): seq<Scheme> {
    Filter(AllSchemes, term, lower)
  }

  /** `a` is `b` with some elements left out, the rest in their original order. */
  predicate IsSubsequence<T(==)>(a: seq<T>, b: seq<T>)
    decreases |a| + |b|
  {
    |a| == 0 || (|b| > 0 && ((a[0] == b[0] && IsSubsequence(a[1..], b[1..])) || IsSubsequence(a, b[1..])))
  }

  /** The filter keeps the original order. */
  lemma {:induction false} FilterSubsequence(xs: seq<Scheme>, term: string, lower: char -> char)
    ensures IsSubsequence(Filter(xs, term, lower), xs)
  {
    if |xs| > 0 {
      FilterSubsequence(xs[1..], term, lower);
      var rest := Filter(xs[1..], term, lower);
      if Matches(xs[0], term, lower) {
        assert Filter(xs, term, lower) == [xs[0]] + rest;
        assert ([xs[0]] + rest)[1..] == rest;
      } else {
        assert Filter(xs, term, lower) == rest;
        if |rest| > 0 {
          assert IsSubsequence(rest, xs[1..]);
        }
      }
    }
  }

  /** An empty search term shows every scheme. */
  lemma {:induction false} EmptyTermKeepsAll(xs: seq<Scheme>, lower: char -> char)
    ensures Filter(xs, "", lower) == xs
  {
    if |xs| > 0 {
      assert MapChars(lower, "") == "";
      ContainsEmpty(MapChars(lower, xs[0].title));
      EmptyTermKeepsAll(xs[1..], lower);
    }
  }

  /** Two terms that lowercase alike select the same schemes. */
  lemma {:induction false} SameLowercaseSameResult(xs: seq<Scheme>, t1: string, t2: string, lower: char -> char)
    requires MapChars(lower, t1) == MapChars(lower, t2)
    ensures Filter(xs, t1, lower) == Filter(xs, t2, lower)
  {
    if |xs| > 0 {
      SameLowercaseSameResult(xs[1..], t1, t2, lower);
    }
  }

  /**
   * With a lowercasing that is idempotent, typing the term in any mixture of
   * cases gives the result of its lowercase form.
   */
  lemma LowercaseTermInvariant(xs: seq<Scheme>, term: string, lower: char -> char)
    requires forall c :: lower(lower(c)) == lower(c)
    ensures Filter(xs, MapChars(lower, term), lower) == Filter(xs, term, lower)
  {
    assert MapChars(lower, MapChars(lower, term)) == MapChars(lower, term);
    SameLowercaseSameResult(xs, MapChars(lower, term), term, lower);
  }

  /** At most the four schemes are shown, in their listed order. */
  lemma FilteredBounds(term: string, lower: char -> char)
    ensures |Filtered(term, lower)| <= 4
    ensures IsSubsequence(Filtered(term, lower), AllSchemes)
    ensures Filtered("", lower) == AllSchemes
  {
    FilterSubsequence(AllSchemes, term, lower);
    EmptyTermKeepsAll(AllSchemes, lower);
  }
}
