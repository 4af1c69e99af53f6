/**
 * The backend's language service (`backend/src/services/translator.rs`):
 * script-and-marker language detection, the `[hindi=english]` hints added
 * to a query before it reaches the model, and the ` (hindi)` glosses added
 * after whole English dictionary words in a reply.
 */
module Translator {

  import opened Text
  import opened Lexicon

  // ---------------------------------------------------------------------------
  // Language detection

  /** The Devanagari block of the Unicode Standard, U+0900 to U+097F. */
  predicate IsDevanagari(c: char) {
    '\U{0900}' <= c <= '\U{097F}'
  }

  predicate HasDevanagari(text: string) {
    exists i :: 0 <= i < |text| && IsDevanagari(text[i])
  }

  /** How many entries of `markers` occur in `text` as substrings. */
  function CountPresent(markers: seq<string>, text: string): (n: nat)
    ensures n <= |markers|
    ensures n == 0 <== forall i :: 0 <= i < |markers| ==> !Contains(text, markers[i])
    decreases |markers|
  {
    if |markers| == 0 then 0
    else
      CountPresent(markers[..|markers| - 1], text)
      + (if Contains(text, markers[|markers| - 1]) then 1 else 0)
  }

  function HindiCount(text: string): nat {
    CountPresent(HindiMarkers, text)
  }

  function MarathiCount(text: string): nat {
    CountPresent(MarathiMarkers, text)
  }

  /**
   * `detect_language`: `en` for text without a Devanagari character;
   * otherwise `mr` when strictly more Marathi than Hindi markers occur and
   * `hi` in every other case, so Devanagari text is never `en`.
   */
  function DetectLanguage(text: string): (code: string)
    ensures code == "en" <==> !HasDevanagari(text)
    ensures code == "mr" <==> HasDevanagari(text) && MarathiCount(text) > HindiCount(text)
    ensures code == "hi" <==> HasDevanagari(text) && MarathiCount(text) <= HindiCount(text)
  {
    var hasDevanagari := HasDevanagari(text);
    if !hasDevanagari then "en"
    else
      var hindi := HindiCount(text);
      var marathi := MarathiCount(text);
      if marathi > hindi then "mr"
      else if hasDevanagari then "hi"
      else "en"
  }

  /** The indices of the markers that occur in `text`. */
  ghost function PresentIndices(markers: seq<string>, text: string): set<int> {
    set i | 0 <= i < |markers| && Contains(text, markers[i])
  }

  /** A marker count is the number of list positions whose marker occurs in the text. */
  lemma {:induction false} CountIsPresentIndices(markers: seq<string>, text: string)
    ensures CountPresent(markers, text) == |PresentIndices(markers, text)|
    decreases |markers|
  {
    if |markers| > 0 {
      var n := |markers| - 1;
      var init := markers[..n];
      CountIsPresentIndices(init, text);
      var below := PresentIndices(init, text);
      assert forall i :: 0 <= i < n ==> init[i] == markers[i];
      if Contains(text, markers[n]) {
        assert PresentIndices(markers, text) == below + {n};
      } else {
        assert PresentIndices(markers, text) == below;
      }
    }
  }

  /** The distinct markers of a list that occur in `text`. */
  ghost function PresentMarkers(markers: seq<string>, text: string): set<string> {
    set m | m in markers && Contains(text, m)
  }

  /**
   * For a list without repetitions the count is the number of distinct
   * markers that occur in the text.
   */
  lemma {:induction false} CountIsDistinctMarkers(markers: seq<string>, text: string)
    requires forall i, j :: 0 <= i < j < |markers| ==> markers[i] != markers[j]
    ensures CountPresent(markers, text) == |PresentMarkers(markers, text)|
    decreases |markers|
  {
    if |markers| == 0 {
      assert PresentMarkers(markers, text) == {};
    } else {
      var n := |markers| - 1;
      var init := markers[..n];
      var last := markers[n];
      CountIsDistinctMarkers(init, text);
      assert markers == init + [last];
      assert forall m :: m in markers <==> m in init || m == last;
      assert last !in init;
      if Contains(text, last) {
        assert PresentMarkers(markers, text) == PresentMarkers(init, text) + {last};
      } else {
        assert PresentMarkers(markers, text) == PresentMarkers(init, text);
      }
    }
  }

  /** The Hindi list repeats no entry, so its count is the number of distinct Hindi markers present. */
  lemma HindiMarkersDistinct()
    ensures forall i, j :: 0 <= i < j < |HindiMarkers| ==> HindiMarkers[i] != HindiMarkers[j]
  {
  }

  /** The Marathi list repeats no entry either. */
  lemma MarathiMarkersDistinct()
    ensures forall i, j :: 0 <= i < j < |MarathiMarkers| ==> MarathiMarkers[i] != MarathiMarkers[j]
  {
  }

  /** `आज`, `भाव` and `रोग` are on both lists, so each of them raises both counts. */
  lemma SharedMarkers(text: string)
    ensures HindiMarkers[18] == MarathiMarkers[17] == "आज"
    ensures HindiMarkers[24] == MarathiMarkers[23] == "भाव"
    ensures HindiMarkers[17] == MarathiMarkers[16] == "रोग"
    ensures forall i :: i in {17, 18, 24} ==> (i in PresentIndices(HindiMarkers, text) <==> (i - 1) in PresentIndices(MarathiMarkers, text))
  {
  }

  lemma SubsetCard<T>(a: set<T>, b: set<T>)
    requires a <= b
    ensures |a| <= |b|
  {
    assert b == a + (b - a);
  }

  /** Every character of an occurrence is a character of the haystack. */
  lemma OccurrenceChars(hay: string, needle: string, i: int)
    requires OccursAt(hay, needle, i)
    ensures forall j :: 0 <= j < |needle| ==> needle[j] in hay
  {
    forall j | 0 <= j < |needle| ensures needle[j] in hay {
      assert needle[j] == hay[i + j];
    }
  }

  /** A needle found at a position occurs in the haystack. */
  lemma FoundAt(hay: string, needle: string, i: int)
    requires OccursAt(hay, needle, i)
    ensures Contains(hay, needle)
  {
    ContainsIffOccurs(hay, needle);
  }

  /** `क्या` occurs in the Hindi example. */
  lemma HindiExampleFinds0(text: string)
    requires text == "आज टमाटर का भाव क्या है?"
    ensures 0 in PresentIndices(HindiMarkers, text)
  {
    MarkerFound(text, HindiMarkers, 0, 16);
  }

  /** So does `है`. */
  lemma HindiExampleFinds1(text: string)
    requires text == "आज टमाटर का भाव क्या है?"
    ensures 1 in PresentIndices(HindiMarkers, text)
  {
    MarkerFound(text, HindiMarkers, 1, 21);
  }

  /** So does `का`. */
  lemma HindiExampleFinds5(text: string)
    requires text == "आज टमाटर का भाव क्या है?"
    ensures 5 in PresentIndices(HindiMarkers, text)
  {
    MarkerFound(text, HindiMarkers, 5, 9);
  }

  /** So does `आज`. */
  lemma HindiExampleFinds18(text: string)
    requires text == "आज टमाटर का भाव क्या है?"
    ensures 18 in PresentIndices(HindiMarkers, text)
  {
    MarkerFound(text, HindiMarkers, 18, 0);
  }

  /** So does `भाव`. */
  lemma HindiExampleFinds24(text: string)
    requires text == "आज टमाटर का भाव क्या है?"
    ensures 24 in PresentIndices(HindiMarkers, text)
  {
    MarkerFound(text, HindiMarkers, 24, 12);
  }

  /** In the Hindi example at least five Hindi markers occur. */
  lemma HindiExampleCount(text: string)
    requires text == "आज टमाटर का भाव क्या है?"
    ensures HindiCount(text) >= 5
  {
    HindiExampleFinds0(text);
    HindiExampleFinds1(text);
    HindiExampleFinds5(text);
    HindiExampleFinds18(text);
    HindiExampleFinds24(text);
    assert {0, 1, 5, 18, 24} <= PresentIndices(HindiMarkers, text);
    assert |{0, 1, 5, 18, 24}| == 5;
    SubsetCard({0, 1, 5, 18, 24}, PresentIndices(HindiMarkers, text));
    CountIsPresentIndices(HindiMarkers, text);
  }

  /** The characters of the Hindi example sentence. */
  const HindiExampleChars: set<char> := {' ', '?', '\U{0906}', '\U{0915}', '\U{091C}', '\U{091F}', '\U{092D}', '\U{092E}', '\U{092F}', '\U{0930}', '\U{0935}', '\U{0939}', '\U{093E}', '\U{0948}', '\U{094D}'}

  lemma HindiExampleCharsCover(text: string)
    requires text == "आज टमाटर का भाव क्या है?"
    ensures forall i :: 0 <= i < |text| ==> text[i] in HindiExampleChars
  {
    forall i | 0 <= i < |text| ensures text[i] in HindiExampleChars {
      assert text[i] in text;
    }
  }

  /** A needle holding a character outside a set that covers the haystack does not occur in it. */
  lemma CharSetBound(hay: string, needle: string, chars: set<char>, j: int)
    requires forall i :: 0 <= i < |hay| ==> hay[i] in chars
    requires 0 <= j < |needle| && needle[j] !in chars
    ensures !Contains(hay, needle)
  {
    ContainsIffOccurs(hay, needle);
    if Contains(hay, needle) {
      var i :| OccursAt(hay, needle, i);
      OccurrenceChars(hay, needle, i);
      assert false;
    }
  }

  /** A marker holding a character outside a set that covers the text is not present in it. */
  lemma MarkerAbsent(text: string, markers: seq<string>, k: int, j: int, chars: set<char>)
    requires forall i :: 0 <= i < |text| ==> text[i] in chars
    requires 0 <= k < |markers| && 0 <= j < |markers[k]| && markers[k][j] !in chars
    ensures k !in PresentIndices(markers, text)
  {
    CharSetBound(text, markers[k], chars, j);
  }

  /** A marker found at some position of the text is present in it. */
  lemma MarkerFound(text: string, markers: seq<string>, k: int, pos: int)
    requires 0 <= k < |markers| && OccursAt(text, markers[k], pos)
    ensures k in PresentIndices(markers, text)
  {
    FoundAt(text, markers[k], pos);
  }

  /** Marathi markers 1 to 8 other than `वर` each hold a character the Hindi example lacks. */
  lemma MarathiAbsentFirst(text: string)
    requires forall i :: 0 <= i < |text| ==> text[i] in HindiExampleChars
    ensures 1 !in PresentIndices(MarathiMarkers, text) && 2 !in PresentIndices(MarathiMarkers, text) && 3 !in PresentIndices(MarathiMarkers, text) && 4 !in PresentIndices(MarathiMarkers, text)
    ensures 5 !in PresentIndices(MarathiMarkers, text) && 6 !in PresentIndices(MarathiMarkers, text) && 8 !in PresentIndices(MarathiMarkers, text)
  {
    MarkerAbsent(text, MarathiMarkers, 1, 2, HindiExampleChars);
    MarkerAbsent(text, MarathiMarkers, 2, 1, HindiExampleChars);
    MarkerAbsent(text, MarathiMarkers, 3, 0, HindiExampleChars);
    MarkerAbsent(text, MarathiMarkers, 4, 0, HindiExampleChars);
    MarkerAbsent(text, MarathiMarkers, 5, 0, HindiExampleChars);
    MarkerAbsent(text, MarathiMarkers, 6, 1, HindiExampleChars);
    MarkerAbsent(text, MarathiMarkers, 8, 1, HindiExampleChars);
  }

  /** So do Marathi markers 9 to 15. */
  lemma MarathiAbsentMiddle(text: string)
    requires forall i :: 0 <= i < |text| ==> text[i] in HindiExampleChars
    ensures 9 !in PresentIndices(MarathiMarkers, text) && 10 !in PresentIndices(MarathiMarkers, text) && 11 !in PresentIndices(MarathiMarkers, text) && 12 !in PresentIndices(MarathiMarkers, text)
    ensures 13 !in PresentIndices(MarathiMarkers, text) && 14 !in PresentIndices(MarathiMarkers, text) && 15 !in PresentIndices(MarathiMarkers, text)
  {
    MarkerAbsent(text, MarathiMarkers, 9, 0, HindiExampleChars);
    MarkerAbsent(text, MarathiMarkers, 10, 0, HindiExampleChars);
    MarkerAbsent(text, MarathiMarkers, 11, 0, HindiExampleChars);
    MarkerAbsent(text, MarathiMarkers, 12, 0, HindiExampleChars);
    MarkerAbsent(text, MarathiMarkers, 13, 0, HindiExampleChars);
    MarkerAbsent(text, MarathiMarkers, 14, 2, HindiExampleChars);
    MarkerAbsent(text, MarathiMarkers, 15, 1, HindiExampleChars);
  }

  /** So do Marathi markers 16 to 22 other than `आज`. */
  lemma MarathiAbsentLast(text: string)
    requires forall i :: 0 <= i < |text| ==> text[i] in HindiExampleChars
    ensures 16 !in PresentIndices(MarathiMarkers, text) && 18 !in PresentIndices(MarathiMarkers, text) && 19 !in PresentIndices(MarathiMarkers, text) && 20 !in PresentIndices(MarathiMarkers, text)
    ensures 21 !in PresentIndices(MarathiMarkers, text) && 22 !in PresentIndices(MarathiMarkers, text)
  {
    MarkerAbsent(text, MarathiMarkers, 16, 1, HindiExampleChars);
    MarkerAbsent(text, MarathiMarkers, 18, 0, HindiExampleChars);
    MarkerAbsent(text, MarathiMarkers, 19, 1, HindiExampleChars);
    MarkerAbsent(text, MarathiMarkers, 20, 1, HindiExampleChars);
    MarkerAbsent(text, MarathiMarkers, 21, 1, HindiExampleChars);
    MarkerAbsent(text, MarathiMarkers, 22, 1, HindiExampleChars);
  }

  /**
   * In a text written with the characters of the Hindi example, only `काय`,
   * `वर`, `आज` and `भाव` can occur among the Marathi markers.
   */
  lemma MarathiPresentAtMost(text: string)
    requires forall i :: 0 <= i < |text| ==> text[i] in HindiExampleChars
    ensures PresentIndices(MarathiMarkers, text) <= {0, 7, 17, 23}
  {
    MarathiAbsentFirst(text);
    MarathiAbsentMiddle(text);
    MarathiAbsentLast(text);
  }

  /** In the Hindi example at most four Marathi markers occur. */
  lemma MarathiExampleCount(text: string)
    requires text == "आज टमाटर का भाव क्या है?"
    ensures MarathiCount(text) <= 4
  {
    HindiExampleCharsCover(text);
    MarathiPresentAtMost(text);
    assert |{0, 7, 17, 23}| == 4;
    SubsetCard(PresentIndices(MarathiMarkers, text), {0, 7, 17, 23});
    CountIsPresentIndices(MarathiMarkers, text);
  }

  /** The Hindi detection example: five Hindi markers against at most four Marathi ones. */
  lemma DetectHindiExample(text: string)
    requires text == "आज टमाटर का भाव क्या है?"
    ensures DetectLanguage(text) == "hi"
  {
    assert IsDevanagari(text[0]);
    HindiExampleCount(text);
    MarathiExampleCount(text);
  }

  /** The English example sentence holds no Devanagari character. */
  lemma EnglishExampleLatin(text: string)
    requires text == "What is the price of tomato today?"
    ensures !HasDevanagari(text)
  {
    forall i | 0 <= i < |text|
      ensures text[i] < '\U{0900}'
    {
      assert text[i] in text;
    }
  }

  /** The English detection example: no Devanagari character, so `en`. */
  lemma DetectEnglishExample(text: string)
    requires text == "What is the price of tomato today?"
    ensures DetectLanguage(text) == "en"
  {
    EnglishExampleLatin(text);
  }

  // ---------------------------------------------------------------------------
  // Hints for the model: `translate_to_english`

  const ToEnglishPrefix: string := "Original query (in Indian language): "
  const ToEnglishSuffix: string := " \n\nPlease understand the context and respond appropriately."

  /** The hint for one dictionary entry: ` [hindi=english]`. */
  function Hint(entry: (string, string)): string {
    " [" + entry.0 + "=" + entry.1 + "]"
  }

  /** The entries, in the given order, whose key occurs in `text`. */
  function Present(text: string, entries: seq<(string, string)>): (r: seq<(string, string)>)
    ensures forall e :: e in r <==> e in entries && Contains(text, e.0)
    ensures |r| <= |entries|
    decreases |entries|
  {
    if |entries| == 0 then []
    else
      var init, last := entries[..|entries| - 1], entries[|entries| - 1];
      assert entries == init + [last];
      Present(text, init) + (if Contains(text, last.0) then [last] else [])
  }

  /** The hints of the given entries, concatenated in order. */
  function Annotations(entries: seq<(string, string)>): string
    decreases |entries|
  {
    if |entries| == 0 then ""
    else Annotations(entries[..|entries| - 1]) + Hint(entries[|entries| - 1])
  }

  /**
   * `translate_to_english`, with the dictionary's iteration order as the
   * parameter `order`: the prefix, the text unchanged, one hint per entry
   * whose key occurs in the text (in iteration order), and the suffix.
   * `fromLang` plays no part.
   */
  method TranslateToEnglish(text: string, fromLang: string, order: seq<(string, string)>) returns (r: string)
    ensures r == ToEnglishPrefix + text + Annotations(Present(text, order)) + ToEnglishSuffix
  {
    var translated := text;
    for i := 0 to |order|
      invariant translated == text + Annotations(Present(text, order[..i]))
    {
      var (hindi, english) := order[i];
      PresentStep(text, order, i);
      ghost var before := Present(text, order[..i]);
      if Contains(text, hindi) {
        AnnotationsSnoc(before, order[i]);
        Append3(text, Annotations(before), Hint(order[i]));
        translated := translated + Hint((hindi, english));
      } else {
        assert Present(text, order[..i + 1]) == before + [];
        assert before + [] == before;
      }
    }
    assert order[..|order|] == order;
    r := ToEnglishPrefix + translated + ToEnglishSuffix;
    Regroup(ToEnglishPrefix, text, Annotations(Present(text, order)), ToEnglishSuffix);
  }

  lemma Regroup(a: string, b: string, c: string, d: string)
    ensures a + (b + c) + d == a + b + c + d
  {
  }

  lemma Append3(a: string, b: string, c: string)
    ensures a + b + c == a + (b + c)
  {
  }

  /** Extending the entries by one extends the present ones by that entry exactly when its key occurs. */
  lemma PresentStep(text: string, entries: seq<(string, string)>, i: int)
    requires 0 <= i < |entries|
    ensures Present(text, entries[..i + 1])
         == Present(text, entries[..i]) + (if Contains(text, entries[i].0) then [entries[i]] else [])
  {
    assert entries[..i + 1][..i] == entries[..i];
  }

  lemma AnnotationsSnoc(entries: seq<(string, string)>, e: (string, string))
    ensures Annotations(entries + [e]) == Annotations(entries) + Hint(e)
  {
    assert (entries + [e])[..|entries|] == entries;
  }

  /** How often an entry appears among the present ones: as often as in the list when its key occurs, else never. */
  lemma {:induction false} PresentMultiplicity(text: string, entries: seq<(string, string)>, e: (string, string))
    ensures multiset(Present(text, entries))[e] == if Contains(text, e.0) then multiset(entries)[e] else 0
    decreases |entries|
  {
    if |entries| > 0 {
      var init, last := entries[..|entries| - 1], entries[|entries| - 1];
      assert entries == init + [last];
      PresentMultiplicity(text, init, e);
    }
  }

  /**
   * The hints do not depend on the iteration order: any two orders of the
   * dictionary give the same hints, each exactly once, differing at most in sequence.
   */
  lemma PresentOrderIndependent(text: string, order1: seq<(string, string)>, order2: seq<(string, string)>)
    requires multiset(order1) == multiset(order2)
    ensures multiset(Present(text, order1)) == multiset(Present(text, order2))
  {
    forall e ensures multiset(Present(text, order1))[e] == multiset(Present(text, order2))[e] {
      PresentMultiplicity(text, order1, e);
      PresentMultiplicity(text, order2, e);
    }
  }

  /** A text containing no dictionary key is passed on with the prefix and suffix only. */
  lemma {:induction false} NoKeyNoHints(text: string, entries: seq<(string, string)>)
    requires forall e :: e in entries ==> !Contains(text, e.0)
    ensures Present(text, entries) == []
    ensures ToEnglishPrefix + text + Annotations(Present(text, entries)) + ToEnglishSuffix
         == ToEnglishPrefix + text + ToEnglishSuffix
    decreases |entries|
  {
    if |entries| > 0 {
      var init := entries[..|entries| - 1];
      assert forall e :: e in init ==> e in entries;
      NoKeyNoHints(text, init);
    }
  }

  /**
   * For any iteration order of a dictionary the hints are for exactly the
   * entries whose key occurs in the text.
   */
  lemma PresentOfPermutation(text: string, order: seq<(string, string)>, dict: seq<(string, string)>)
    requires multiset(order) == multiset(dict)
    ensures forall e :: e in Present(text, order) <==> e in dict && Contains(text, e.0)
  {
    assert forall e :: e in order <==> e in multiset(order);
    assert forall e :: e in dict <==> e in multiset(dict);
  }

  // ---------------------------------------------------------------------------
  // Glosses in the reply: `translate_from_english`

  /**
   * `\b` of the pattern `(?i)\bterm\b` at position `k` of `s`: exactly one
   * of the characters on either side is a word character, with positions
   * outside `s` counting as non-word.
   */
  predicate Boundary(s: string, k: int, isWord: char -> bool)
    requires 0 <= k <= |s|
  {
    (k > 0 && isWord(s[k - 1])) != (k < |s| && isWord(s[k]))
  }

  /** `(?i)`: the two strings agree character by character up to case folding. */
  predicate FoldEq(a: string, b: string, fold: char -> char)
    decreases |a|
  {
    |a| == |b| && (|a| == 0 || (fold(a[0]) == fold(b[0]) && FoldEq(a[1..], b[1..], fold)))
  }

  /** Agreement up to folding is agreement of the folded characters at every index. */
  lemma {:induction false} FoldEqIff(a: string, b: string, fold: char -> char)
    ensures FoldEq(a, b, fold) <==> |a| == |b| && forall i :: 0 <= i < |a| ==> fold(a[i]) == fold(b[i])
    decreases |a|
  {
    if |a| > 0 && |a| == |b| {
      FoldEqIff(a[1..], b[1..], fold);
      assert forall i :: 1 <= i < |a| ==> a[1..][i - 1] == a[i] && b[1..][i - 1] == b[i];
    }
  }

  /** Every string matches itself, whatever the folding. */
  lemma FoldEqRefl(a: string, fold: char -> char)
    ensures FoldEq(a, a, fold)
  {
    FoldEqIff(a, a, fold);
  }

  /** `(?i)\bterm\b` matches `s` at position `p`. */
  predicate WordAt(s: string, term: string, p: int, isWord: char -> bool, fold: char -> char) {
    0 <= p && p + |term| <= |s| && FoldEq(s[p..p + |term|], term, fold)
    && Boundary(s, p, isWord) && Boundary(s, p + |term|, isWord)
  }

  /** The text cut at the matches of one term: single characters kept, and matched words as written. */
  datatype Piece = Keep(c: char) | Tagged(word: string)

  /**
   * `replace_all` of one term from position `i` on: the leftmost match is
   * taken, the search resumes after it, and every other character is kept.
   */
  function Scan(s: string, term: string, isWord: char -> bool, fold: char -> char, i: nat): (ps: seq<Piece>)
    requires |term| > 0 && i <= |s|
    ensures forall k :: 0 <= k < |ps| && ps[k].Tagged? ==> FoldEq(ps[k].word, term, fold)
    decreases |s| - i
  {
    if i == |s| then []
    else if WordAt(s, term, i, isWord, fold) then [Tagged(s[i..i + |term|])] + Scan(s, term, isWord, fold, i + |term|)
    else [Keep(s[i])] + Scan(s, term, isWord, fold, i + 1)
  }

  /** The text a piece stands for. */
  function PieceText(p: Piece): string {
    match p
    case Keep(c) => [c]
    case Tagged(word) => word
  }

  /** The text the pieces were cut from. */
  function Unparse(ps: seq<Piece>): string {
    if |ps| == 0 then "" else PieceText(ps[0]) + Unparse(ps[1..])
  }

  /** The pieces written out with ` (gloss)` after each matched word. */
  function RenderPieces(ps: seq<Piece>, gloss: string): string {
    if |ps| == 0 then ""
    else (match ps[0] case Keep(c) => [c] case Tagged(word) => word + " (" + gloss + ")") + RenderPieces(ps[1..], gloss)
  }

  /** One pass of the loop: every whole-word match of `term` is followed by ` (gloss)`. */
  function GlossTerm(s: string, term: string, gloss: string, isWord: char -> bool, fold: char -> char): string
    requires |term| > 0
  {
    RenderPieces(Scan(s, term, isWord, fold, 0), gloss)
  }

  /** Whole passes over the entries, in order, each on the previous pass's output. */
  function GlossAll(text: string, entries: seq<(string, string)>, isWord: char -> bool, fold: char -> char): string
    requires forall e :: e in entries ==> |e.0| > 0
    decreases |entries|
  {
    if |entries| == 0 then text
    else
      var init, last := entries[..|entries| - 1], entries[|entries| - 1];
      assert forall e :: e in init ==> e in entries;
      GlossTerm(GlossAll(text, init, isWord, fold), last.0, last.1, isWord, fold)
  }

  /** Every English key of the dictionary is a non-empty word, so any iteration order of it meets the precondition of `TranslateFromEnglish`. */
  lemma EnglishKeysNonEmpty()
    ensures forall e :: e in EnglishToHindi ==> |e.0| > 0
  {
  }

  /**
   * `translate_from_english`, with the dictionary's iteration order as
   * `order` and the regex's word-character test and case folding as
   * parameters: the text unchanged unless the target is `hi` or `mr`, and
   * otherwise the result of one gloss pass per entry, in iteration order.
   */
  method TranslateFromEnglish(text: string, toLang: string, order: seq<(string, string)>,
                              isWord: char -> bool, fold: char -> char) returns (result: string)
    requires forall e :: e in order ==> |e.0| > 0
    ensures toLang == "hi" || toLang == "mr" ==> result == GlossAll(text, order, isWord, fold)
    ensures toLang != "hi" && toLang != "mr" ==> result == text
  {
    if toLang == "en" {
      return text;
    }
    result := text;
    if toLang == "hi" || toLang == "mr" {
      for i := 0 to |order|
        invariant result == GlossAll(text, order[..i], isWord, fold)
      {
        var (english, hindi) := order[i];
        assert order[..i + 1][..i] == order[..i];
        result := GlossTerm(result, english, hindi, isWord, fold);
      }
      assert order[..|order|] == order;
    }
  }

  /** Removing the glosses gives back the text: a pass only inserts. */
  lemma {:induction false} ScanUnparse(s: string, term: string, isWord: char -> bool, fold: char -> char, i: nat)
    requires |term| > 0 && i <= |s|
    ensures Unparse(Scan(s, term, isWord, fold, i)) == s[i..]
    decreases |s| - i, 1
  {
    if i < |s| {
      if WordAt(s, term, i, isWord, fold) {
        var j := i + |term|;
        assert Scan(s, term, isWord, fold, i) == [Tagged(s[i..j])] + Scan(s, term, isWord, fold, j);
        ScanUnparseMatch(s, term, isWord, fold, i, j);
      } else {
        ScanUnparseKeep(s, term, isWord, fold, i);
      }
    }
  }

  /** `ScanUnparse` at a match ending before `j`: the matched word, then the rest. */
  lemma {:induction false} ScanUnparseMatch(s: string, term: string, isWord: char -> bool, fold: char -> char, i: nat, j: nat)
    requires |term| > 0 && i < j <= |s| && j == i + |term|
    requires Scan(s, term, isWord, fold, i) == [Tagged(s[i..j])] + Scan(s, term, isWord, fold, j)
    ensures Unparse(Scan(s, term, isWord, fold, i)) == s[i..]
    decreases |s| - i, 0
  {
    var rest := Scan(s, term, isWord, fold, j);
    ScanUnparse(s, term, isWord, fold, j);
    UnparseCons(Tagged(s[i..j]), rest);
    assert s[i..] == s[i..j] + s[j..];
  }

  /** `ScanUnparse` at a kept character. */
  lemma {:induction false} ScanUnparseKeep(s: string, term: string, isWord: char -> bool, fold: char -> char, i: nat)
    requires |term| > 0 && i < |s| && !WordAt(s, term, i, isWord, fold)
    ensures Unparse(Scan(s, term, isWord, fold, i)) == s[i..]
    decreases |s| - i, 0
  {
    var rest := Scan(s, term, isWord, fold, i + 1);
    assert Scan(s, term, isWord, fold, i) == [Keep(s[i])] + rest;
    ScanUnparse(s, term, isWord, fold, i + 1);
    UnparseCons(Keep(s[i]), rest);
    assert s[i..] == [s[i]] + s[i + 1..];
  }

  lemma UnparseCons(p: Piece, rest: seq<Piece>)
    ensures Unparse([p] + rest) == PieceText(p) + Unparse(rest)
  {
    assert ([p] + rest)[1..] == rest;
  }

  /** Writing the glosses out never shortens the text, and adds nothing when no word matched. */
  lemma {:induction false} RenderCoversUnparse(ps: seq<Piece>, gloss: string)
    ensures |RenderPieces(ps, gloss)| >= |Unparse(ps)|
    ensures (forall k :: 0 <= k < |ps| ==> ps[k].Keep?) ==> RenderPieces(ps, gloss) == Unparse(ps)
  {
    if |ps| > 0 {
      RenderCoversUnparse(ps[1..], gloss);
    }
  }

  /** Without a match there are only kept characters. */
  lemma {:induction false} ScanNoMatch(s: string, term: string, isWord: char -> bool, fold: char -> char, i: nat)
    requires |term| > 0 && i <= |s|
    requires forall p :: i <= p < |s| ==> !WordAt(s, term, p, isWord, fold)
    ensures forall k :: 0 <= k < |Scan(s, term, isWord, fold, i)| ==> Scan(s, term, isWord, fold, i)[k].Keep?
    decreases |s| - i
  {
    if i < |s| {
      ScanNoMatch(s, term, isWord, fold, i + 1);
    }
  }

  /**
   * One pass keeps the text as a subsequence it only inserts into: erasing
   * the glosses gives the input back, the output is never shorter, and a
   * text without a whole-word match is returned unchanged.
   */
  lemma GlossTermInserts(s: string, term: string, gloss: string, isWord: char -> bool, fold: char -> char)
    requires |term| > 0
    ensures Unparse(Scan(s, term, isWord, fold, 0)) == s
    ensures |GlossTerm(s, term, gloss, isWord, fold)| >= |s|
    ensures (forall p :: 0 <= p < |s| ==> !WordAt(s, term, p, isWord, fold)) ==> GlossTerm(s, term, gloss, isWord, fold) == s
  {
    ScanUnparse(s, term, isWord, fold, 0);
    RenderCoversUnparse(Scan(s, term, isWord, fold, 0), gloss);
    if forall p :: 0 <= p < |s| ==> !WordAt(s, term, p, isWord, fold) {
      ScanNoMatch(s, term, isWord, fold, 0);
    }
  }

  /**
   * What a piece starting at position `p` of `s` says about the text: a kept
   * character is the text's character and no whole-word match of `term`
   * starts there; a tagged word is the text at a whole-word match.
   */
  predicate PieceAt(s: string, term: string, isWord: char -> bool, fold: char -> char, piece: Piece, p: int) {
    match piece
    case Keep(c) => 0 <= p < |s| && s[p] == c && !WordAt(s, term, p, isWord, fold)
    case Tagged(word) => WordAt(s, term, p, isWord, fold) && word == s[p..p + |term|]
  }

  /**
   * The pieces, laid end to end from position `i` of `s`, each hold at the
   * position where they start (`PieceAt`).
   */
  predicate PiecesFrom(s: string, term: string, isWord: char -> bool, fold: char -> char, ps: seq<Piece>, i: int)
    decreases |ps|
  {
    |ps| == 0
    || (PieceAt(s, term, isWord, fold, ps[0], i) && PiecesFrom(s, term, isWord, fold, ps[1..], i + |PieceText(ps[0])|))
  }

  /**
   * `replace_all` finds the matches left to right without overlap: every
   * piece of the scan, at the position where it starts in the text, is a
   * whole-word match exactly when it is tagged. So every match the scan
   * reaches is tagged, and `RenderPieces` follows it with ` (gloss)`.
   */
  lemma {:induction false} ScanPieces(s: string, term: string, isWord: char -> bool, fold: char -> char, i: nat)
    requires |term| > 0 && i <= |s|
    ensures PiecesFrom(s, term, isWord, fold, Scan(s, term, isWord, fold, i), i)
    decreases |s| - i
  {
    if i < |s| {
      var x, j := FirstPiece(s, term, isWord, fold, i);
      ScanPieces(s, term, isWord, fold, j);
      PiecesFromCons(s, term, isWord, fold, Scan(s, term, isWord, fold, i), x, Scan(s, term, isWord, fold, j), i, j);
    }
  }

  /** The first piece of the scan from `i` holds at `i`, and the scan resumes where it ends. */
  lemma FirstPiece(s: string, term: string, isWord: char -> bool, fold: char -> char, i: nat) returns (x: Piece, j: nat)
    requires |term| > 0 && i < |s|
    ensures i < j <= |s| && j == i + |PieceText(x)|
    ensures PieceAt(s, term, isWord, fold, x, i)
    ensures Scan(s, term, isWord, fold, i) == [x] + Scan(s, term, isWord, fold, j)
  {
    if WordAt(s, term, i, isWord, fold) {
      x, j := Tagged(s[i..i + |term|]), i + |term|;
    } else {
      x, j := Keep(s[i]), i + 1;
    }
  }

  lemma PiecesFromCons(s: string, term: string, isWord: char -> bool, fold: char -> char, ps: seq<Piece>, x: Piece, rest: seq<Piece>, i: int, j: int)
    requires ps == [x] + rest && j == i + |PieceText(x)|
    requires PieceAt(s, term, isWord, fold, x, i) && PiecesFrom(s, term, isWord, fold, rest, j)
    ensures PiecesFrom(s, term, isWord, fold, ps, i)
  {
    assert ps[0] == x && ps[1..] == rest;
  }

  /**
   * A text that is the English word itself, delimited by word characters at
   * both ends, is glossed: the word, then ` (gloss)`.
   */
  lemma WordGlossed(s: string, gloss: string, isWord: char -> bool, fold: char -> char)
    requires |s| > 0 && isWord(s[0]) && isWord(s[|s| - 1])
    ensures GlossTerm(s, s, gloss, isWord, fold) == s + " (" + gloss + ")"
  {
    assert s[0..|s|] == s;
    FoldEqRefl(s, fold);
    assert WordAt(s, s, 0, isWord, fold);
    var ps := [Tagged(s)];
    assert Scan(s, s, isWord, fold, 0) == ps + Scan(s, s, isWord, fold, |s|);
    assert ps + [] == ps && ps[1..] == [];
    assert RenderPieces(ps, gloss) == s + " (" + gloss + ")" + RenderPieces([], gloss);
  }

  /** All passes together never shorten the text. */
  lemma {:induction false} GlossAllLonger(text: string, entries: seq<(string, string)>, isWord: char -> bool, fold: char -> char)
    requires forall e :: e in entries ==> |e.0| > 0
    ensures |GlossAll(text, entries, isWord, fold)| >= |text|
    decreases |entries|
  {
    if |entries| > 0 {
      var init, last := entries[..|entries| - 1], entries[|entries| - 1];
      assert forall e :: e in init ==> e in entries;
      GlossAllLonger(text, init, isWord, fold);
      GlossTermInserts(GlossAll(text, init, isWord, fold), last.0, last.1, isWord, fold);
    }
  }

  /** A reply in which no dictionary term occurs as a whole word comes back unchanged. */
  lemma {:induction false} GlossAllNoMatch(text: string, entries: seq<(string, string)>, isWord: char -> bool, fold: char -> char)
    requires forall e :: e in entries ==> |e.0| > 0
    requires forall e, p :: e in entries && 0 <= p < |text| ==> !WordAt(text, e.0, p, isWord, fold)
    ensures GlossAll(text, entries, isWord, fold) == text
    decreases |entries|
  {
    if |entries| > 0 {
      var init, last := entries[..|entries| - 1], entries[|entries| - 1];
      assert forall e :: e in init ==> e in entries;
      GlossAllNoMatch(text, init, isWord, fold);
      GlossTermInserts(text, last.0, last.1, isWord, fold);
    }
  }
}
