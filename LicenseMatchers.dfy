/**
 * License comments.  Two case-insensitive global expressions are matched
 * against the sanitized comment text: one made of the specific phrases of
 * the known licenses, one of general wording ("license", "copyright",
 * "(c)", ...).  The expressions are built on first use and then kept.
 * Matching itself is a parameter: it gives the number of matches, where
 * the source sees `null` for none.
 */
module LicenseMatchers {
  import opened Wrappers
  import opened Strings
  import opened SourceComments

  /** A regular expression as the source builds it: its pattern text and its flags. */
  datatype RegExp = RegExp(source: string, flags: string)

  /** The general license wording. */
  const GeneralLicenseText: string := "[\\s-]licen[sc]e[\\s-]|copyright|copyleft|\\(c\\)|provided \\\"as is\\\""

  /** `text.match(re)` with the `g` flag: `null` when nothing matches, otherwise all matches. */
  function MatchResult(count: nat): (m: Option<nat>)
    ensures m == None <==> count == 0
    ensures m.Some? ==> m.value == count && m.value >= 1
  {
    if count == 0 then None else Some(count)
  }

  /** The decision expression of `annotate`, over the two match results, as written. */
  predicate IsLicenseText(specificMatches: Option<nat>, generalMatches: Option<nat>)
  {
    generalMatches != None &&
    ((specificMatches != None && specificMatches.value > 0 && generalMatches.value >= 0) ||
      generalMatches.value > 1)
  }

  /** In match counts: at least one general match, and a specific match or a second general match. */
  lemma LicenseRule(specific: nat, general: nat)
    ensures IsLicenseText(MatchResult(specific), MatchResult(general)) <==>
      general >= 1 && (specific >= 1 || general >= 2)
  {
  }

  /** Without general wording a comment is never a license, however many specific phrases it holds. */
  lemma NoGeneralNoLicense(specific: nat)
    ensures !IsLicenseText(MatchResult(specific), MatchResult(0))
  {
  }

  /** One specific phrase turns one general match into a license; two general matches need none. */
  lemma LicenseThresholds()
    ensures !IsLicenseText(MatchResult(0), MatchResult(1))
    ensures IsLicenseText(MatchResult(1), MatchResult(1))
    ensures IsLicenseText(MatchResult(0), MatchResult(2))
  {
  }

  class LicenseMatcher {
    var customLicenseRegexp: Option<RegExp>
    var generalLicenseRegexp: Option<RegExp>
    /** The phrases of the known licenses (the source collects its `get…Part` methods by reflection). */
    const customLicenseParts: seq<string>

    /** The expression of the specific phrases: the parts joined by `|`, global and case-insensitive. */
    function CustomExpression(): RegExp
    {
      RegExp(Join(customLicenseParts, "|"), "gi")
    }

    /** A cache that is filled holds the expression its getter builds. */
    ghost predicate Valid()
      reads this
    {
      (customLicenseRegexp == None || customLicenseRegexp == Some(CustomExpression())) &&
      (generalLicenseRegexp == None || generalLicenseRegexp == Some(RegExp(GeneralLicenseText, "gi")))
    }

    /** A fresh matcher has built neither expression. */
    constructor (parts: seq<string>)
      ensures customLicenseRegexp == None && generalLicenseRegexp == None
      ensures customLicenseParts == parts
      ensures Valid()
    {
      customLicenseRegexp := None;
      generalLicenseRegexp := None;
      customLicenseParts := parts;
    }

    /** The expression of the specific phrases: built from the parts joined by `|` on first use, then reused. */
    method GetOrBuildCustomLicenseRegexp() returns (r: RegExp)
      modifies this`customLicenseRegexp
      ensures old(customLicenseRegexp) == None ==> r == RegExp(Join(customLicenseParts, "|"), "gi")
      ensures old(customLicenseRegexp) != None ==> r == old(customLicenseRegexp).value
      ensures customLicenseRegexp == Some(r)
      ensures old(Valid()) ==> Valid() && r == CustomExpression()
    {
      if customLicenseRegexp == None {
        var regexpText := Join(customLicenseParts, "|");
        customLicenseRegexp := Some(RegExp(regexpText, "gi"));
      }
      r := customLicenseRegexp.value;
    }

    /** The expression of the general wording: built on first use, then reused. */
    method GetOrBuildGeneralLicenseRegexp() returns (r: RegExp)
      modifies this`generalLicenseRegexp
      ensures old(generalLicenseRegexp) == None ==> r == RegExp(GeneralLicenseText, "gi")
      ensures old(generalLicenseRegexp) != None ==> r == old(generalLicenseRegexp).value
      ensures generalLicenseRegexp == Some(r)
      ensures old(Valid()) ==> Valid() && r == RegExp(GeneralLicenseText, "gi")
    {
      if generalLicenseRegexp == None {
        generalLicenseRegexp := Some(RegExp(GeneralLicenseText, "gi"));
      }
      r := generalLicenseRegexp.value;
    }

    /** The two getters return the same expressions on every call. */
    method GettersAreIdempotent() returns (same: bool)
      modifies this`customLicenseRegexp, this`generalLicenseRegexp
      ensures same
    {
      var custom1 := GetOrBuildCustomLicenseRegexp();
      var custom2 := GetOrBuildCustomLicenseRegexp();
      var general1 := GetOrBuildGeneralLicenseRegexp();
      var general2 := GetOrBuildGeneralLicenseRegexp();
      same := custom1 == custom2 && general1 == general2;
    }

    /**
     * `annotate`: a license comment gets one Copyright classification
     * appended; any other comment keeps its classifications.
     */
    method Annotate(comment: SourceComment, strip: string -> string, countMatches: (RegExp, string) -> nat)
      requires comment.Valid()
      modifies this`customLicenseRegexp, this`generalLicenseRegexp, comment`classifications
      ensures customLicenseRegexp ==
        Some(if old(customLicenseRegexp) == None then CustomExpression() else old(customLicenseRegexp).value)
      ensures generalLicenseRegexp ==
        Some(if old(generalLicenseRegexp) == None then RegExp(GeneralLicenseText, "gi") else old(generalLicenseRegexp).value)
      ensures old(Valid()) ==> Valid()
      ensures old(Valid()) ==> var text := SanitizedCommentText(comment.parts, strip).text;
        comment.classifications == old(comment.classifications) +
          if IsLicenseText(MatchResult(countMatches(CustomExpression(), text)),
                           MatchResult(countMatches(RegExp(GeneralLicenseText, "gi"), text)))
          then [Classification(Copyright, None)] else []
      ensures var text := SanitizedCommentText(comment.parts, strip).text;
        comment.classifications == old(comment.classifications) +
          if IsLicenseText(MatchResult(countMatches(customLicenseRegexp.value, text)),
                           MatchResult(countMatches(generalLicenseRegexp.value, text)))
          then [Classification(Copyright, None)] else []
    {
      var sanitized := comment.GetSanitizedCommentText(strip);
      var text := sanitized.text;
      var custom := GetOrBuildCustomLicenseRegexp();
      var specificMatches := MatchResult(countMatches(custom, text));
      var general := GetOrBuildGeneralLicenseRegexp();
      var generalMatches := MatchResult(countMatches(general, text));
      var isLicenseText := generalMatches != None &&
        ((specificMatches != None && specificMatches.value > 0 && generalMatches.value >= 0) ||
          generalMatches.value > 1);
      if isLicenseText {
        comment.classifications := comment.classifications + [Classification(Copyright, None)];
      }
    }
  }

  /**
   * A new matcher's first annotation decides by the alternation of its
   * parts and by the general wording, and leaves both expressions cached.
   */
  method AnnotateWithNewMatcher(parts: seq<string>, comment: SourceComment, strip: string -> string,
                                countMatches: (RegExp, string) -> nat) returns (m: LicenseMatcher)
    requires comment.Valid()
    modifies comment`classifications
    ensures fresh(m) && m.Valid() && m.customLicenseParts == parts
    ensures m.customLicenseRegexp == Some(RegExp(Join(parts, "|"), "gi"))
    ensures m.generalLicenseRegexp == Some(RegExp(GeneralLicenseText, "gi"))
    ensures var text := SanitizedCommentText(comment.parts, strip).text;
      comment.classifications == old(comment.classifications) +
        if IsLicenseText(MatchResult(countMatches(RegExp(Join(parts, "|"), "gi"), text)),
                         MatchResult(countMatches(RegExp(GeneralLicenseText, "gi"), text)))
        then [Classification(Copyright, None)] else []
  {
    m := new LicenseMatcher(parts);
    m.Annotate(comment, strip, countMatches);
  }
}
