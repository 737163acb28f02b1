/**
 * The advertisement heuristic: a title is an ad when its lower-cased form
 * contains the word "advertisement" as a contiguous substring.
 */
module AdDetect {
  import opened Wrappers
  import opened AsciiCase

  /** The word searched for; thirteen characters long. */
  const AdToken: string := "advertisement"

  /** `needle` occurs in `hay` starting at position `i`. */
  predicate OccursAt(hay: string, needle: string, i: int) {
    0 <= i && i + |needle| <= |hay| && hay[i..i + |needle|] == needle
  }

  /** `needle` occurs somewhere in `hay`. */
  predicate Contains(hay: string, needle: string) {
    exists i :: 0 <= i <= |hay| - |needle| && OccursAt(hay, needle, i)
  }

  /** The verdict of `is_ad`. */
  predicate IsAd(title: string) {
    Contains(Lower(title), AdToken)
  }

  /**
   * A window of the ORIGINAL title, thirteen characters long from `i`, that
   * reads "advertisement" in any mixture of letter case.
   */
  predicate AdWindowAt(title: string, i: int) {
    0 <= i && i + |AdToken| <= |title| && SameUpToCase(title[i..i + |AdToken|], AdToken)
  }

  /**
   * `std::string::find`: the first position at which `needle` occurs in `hay`,
   * or `None` (the `npos` answer) when it occurs nowhere.
   */
  method Find(hay: string, needle: string) returns (pos: Option<nat>)
    ensures pos.Some? ==> OccursAt(hay, needle, pos.value)
    ensures pos.Some? ==> forall j :: 0 <= j < pos.value ==> !OccursAt(hay, needle, j)
    ensures pos.None? <==> !Contains(hay, needle)
  {
    if |needle| > |hay| {
      return None;
    }
    var i := 0;
    while i <= |hay| - |needle|
      invariant 0 <= i <= |hay| - |needle| + 1
      invariant forall j :: 0 <= j < i ==> !OccursAt(hay, needle, j)
    {
      if hay[i..i + |needle|] == needle {
        return Some(i);
      }
      i := i + 1;
    }
    return None;
  }

  /** `is_ad`: lower-case a copy of the title, then search it for the word. */
  method DetectAd(title: string) returns (ad: bool)
    ensures ad <==> IsAd(title)
    ensures ad ==> |title| >= |AdToken|
  {
    var lower := TransformToLower(title);
    var pos := Find(lower, AdToken);
    ad := pos.Some?;
  }

  /** A title shorter than the word, the empty title among them, is never an ad. */
  lemma ShortTitleIsNotAd(title: string)
    requires |title| < |AdToken|
    ensures !IsAd(title)
  {
  }

  /**
   * The verdict read off the original title: it is an ad exactly when some
   * thirteen-character window spells "advertisement" ignoring case.
   */
  lemma {:induction false} IsAdIffWindow(title: string)
    ensures IsAd(title) <==> exists i :: AdWindowAt(title, i)
  {
    if IsAd(title) {
      var i :| 0 <= i <= |title| - |AdToken| && OccursAt(Lower(title), AdToken, i);
      WindowMatch(title, i);
      assert AdWindowAt(title, i);
    }
    if exists i :: AdWindowAt(title, i) {
      var i :| AdWindowAt(title, i);
      WindowMatch(title, i);
      assert OccursAt(Lower(title), AdToken, i);
    }
  }

  /** At one position: the lower-cased title shows the word iff the window matches up to case. */
  lemma WindowMatch(title: string, i: int)
    requires 0 <= i && i + |AdToken| <= |title|
    ensures OccursAt(Lower(title), AdToken, i) <==> AdWindowAt(title, i)
  {
    var w := title[i..i + |AdToken|];
    LowerSlice(title, i, i + |AdToken|);
    SameUpToCaseIff(w, AdToken);
    LowerFixesNoUpper(AdToken);
  }

  /** Text around an ad title never hides the ad. */
  lemma {:induction false} AdSurvivesContext(prefix: string, title: string, suffix: string)
    requires IsAd(title)
    ensures IsAd(prefix + title + suffix)
  {
    var i :| 0 <= i <= |title| - |AdToken| && OccursAt(Lower(title), AdToken, i);
    var whole := prefix + title + suffix;
    LowerConcat(prefix + title, suffix);
    LowerConcat(prefix, title);
    assert Lower(whole) == Lower(prefix) + Lower(title) + Lower(suffix);
    var k := |prefix| + i;
    assert Lower(whole)[k..k + |AdToken|] == Lower(title)[i..i + |AdToken|];
    assert OccursAt(Lower(whole), AdToken, k);
  }

  /** The verdict does not depend on letter case: lower-casing first changes nothing. */
  lemma IsAdIgnoresCase(title: string)
    ensures IsAd(title) <==> IsAd(Lower(title))
  {
    LowerIdempotent(title);
  }

  /** Two titles that differ only in letter case get the same verdict. */
  lemma SameUpToCaseSameVerdict(a: string, b: string)
    requires SameUpToCase(a, b)
    ensures IsAd(a) <==> IsAd(b)
  {
    SameUpToCaseIff(a, b);
  }

  /** Changing the case of any single character of a title keeps the verdict. */
  lemma FlipOneKeepsVerdict(title: string, k: int)
    requires 0 <= k < |title|
    ensures IsAd(title) <==> IsAd(title[k := FlipCase(title[k])])
  {
    FlipOneSameUpToCase(title, k);
    SameUpToCaseSameVerdict(title, title[k := FlipCase(title[k])]);
  }

  /** Example titles: the word in any case, at any place, is detected. */
  lemma DetectedExamples()
    ensures IsAd("Advertisement")
    ensures IsAd("ADVERTISEMENT break")
    ensures IsAd("an advertisement now")
  {
    assert OccursAt(Lower("Advertisement"), AdToken, 0);
    assert OccursAt(Lower("ADVERTISEMENT break"), AdToken, 0);
    assert OccursAt(Lower("an advertisement now"), AdToken, 3);
  }

  /** Example titles without the word, or with it broken up, are not ads. */
  lemma NotDetectedExamples()
    ensures !IsAd("Ad break")
    ensures !IsAd("")
    ensures !IsAd("Advert isement")
  {
    var t := "Advert isement";
    forall i | 0 <= i <= |Lower(t)| - |AdToken|
      ensures !OccursAt(Lower(t), AdToken, i)
    {
      if i == 0 {
        assert Lower(t)[6] == ' ';
      } else {
        assert Lower(t)[1] == 'd';
      }
    }
  }
}
