/**
 * The string builders of the comic list: the search predicate built from the
 * search bar's text, and the section index title built from a year.
 */
module Search {
  import opened Wrappers
  import opened Strings

  /**
   * `CharacterSet.alphanumerics` and `CharacterSet.decimalDigits`. Their
   * membership follows Unicode categories and is left as parameters.
   */
  datatype CharacterClasses = CharacterClasses(alphanumeric: char -> bool, decimalDigit: char -> bool)

  /** `characterSet.inverted`. */
  function Inverted(member: char -> bool): char -> bool {
    c => !member(c)
  }

  /** The wildcard pattern before normalization: the search text between stars, each non-alphanumeric run member a star. */
  function StarPattern(text: string, classes: CharacterClasses): (pattern: string)
    ensures |pattern| >= 2 && pattern[0] == '*' && pattern[|pattern| - 1] == '*'
  {
    "*" + Joined(Components(text, Inverted(classes.alphanumeric)), "*") + "*"
  }

  /** `starryString`: the normalized wildcard pattern. */
  function StarryString(text: string, classes: CharacterClasses, normalize: string -> string): string {
    normalize(StarPattern(text, classes))
  }

  /** `numberString`: the text split on non-digits and joined with nothing. */
  function NumberString(text: string, classes: CharacterClasses): (digits: string)
    ensures forall c :: c in digits ==> classes.decimalDigit(c)
  {
    JoinedComponents(text, Inverted(classes.decimalDigit), []);
    SubstituteNothing(text, Inverted(classes.decimalDigit), classes.decimalDigit);
    FilterMembers(text, classes.decimalDigit);
    Joined(Components(text, Inverted(classes.decimalDigit)), "")
  }

  /**
   * Every character of the text keeps its position one place to the right,
   * except that non-alphanumerics become stars; a star is added at each end.
   */
  lemma StarPatternShape(text: string, classes: CharacterClasses)
    ensures |StarPattern(text, classes)| == |text| + 2
    ensures StarPattern(text, classes)[0] == '*' && StarPattern(text, classes)[|text| + 1] == '*'
    ensures forall i :: 0 <= i < |text| ==>
      StarPattern(text, classes)[i + 1] == if classes.alphanumeric(text[i]) then text[i] else '*'
  {
    var separator := Inverted(classes.alphanumeric);
    JoinedComponents(text, separator, "*");
    SubstituteCharacter(text, separator, '*');
    var middle := Substitute(text, separator, "*");
    assert StarPattern(text, classes) == "*" + middle + "*";
    forall i | 0 <= i < |text|
      ensures StarPattern(text, classes)[i + 1] == if classes.alphanumeric(text[i]) then text[i] else '*'
    {
      assert StarPattern(text, classes)[i + 1] == middle[i];
    }
  }

  /** The number string is the text's decimal digits, in order, and nothing else; it may be empty. */
  lemma NumberStringDigits(text: string, classes: CharacterClasses)
    ensures NumberString(text, classes) == Filter(text, classes.decimalDigit)
    ensures forall c :: c in NumberString(text, classes) <==> c in text && classes.decimalDigit(c)
  {
    JoinedComponents(text, Inverted(classes.decimalDigit), []);
    SubstituteNothing(text, Inverted(classes.decimalDigit), classes.decimalDigit);
    FilterMembers(text, classes.decimalDigit);
  }

  /** The normalized attributes the search looks at. */
  datatype Attribute = SafeTitleNormalized | AlternateTextNormalized | TranscriptNormalized | LinkNormalized

  /** One alternative of the predicate: `attribute LIKE pattern` or `number == text`. */
  datatype Clause = Like(attribute: Attribute, pattern: string) | NumberEquals(text: string)

  /**
   * The fetch request's predicate: None (no filter) unless there is search
   * text; otherwise the alternatives, any one of which selects a comic.
   */
  function SearchPredicate(searchText: Option<string>, classes: CharacterClasses,
                           normalize: string -> string): (clauses: Option<seq<Clause>>)
    ensures clauses.Some? <==> searchText.Some? && searchText.value != []
    ensures clauses.Some? ==> |clauses.value| == 5
  {
    if searchText.None? || |searchText.value| == 0 then None
    else
      var starry := StarryString(searchText.value, classes, normalize);
      var number := NumberString(searchText.value, classes);
      Some([Like(SafeTitleNormalized, starry), NumberEquals(number), Like(AlternateTextNormalized, starry),
            Like(TranscriptNormalized, starry), Like(LinkNormalized, starry)])
  }

  /**
   * A filter exists exactly for non-empty search text. It matches each of the
   * four normalized text attributes against the one starry pattern and the
   * number against the digit string, and has no other alternative.
   */
  lemma SearchPredicateShape(searchText: Option<string>, classes: CharacterClasses, normalize: string -> string)
    ensures SearchPredicate(searchText, classes, normalize).Some? <==> searchText.Some? && searchText.value != []
    ensures SearchPredicate(searchText, classes, normalize).Some? ==>
      var clauses := SearchPredicate(searchText, classes, normalize).value;
      var text := searchText.value;
      && (forall a: Attribute :: Like(a, StarryString(text, classes, normalize)) in clauses)
      && NumberEquals(NumberString(text, classes)) in clauses
      && forall c :: c in clauses ==>
           (c.Like? && c.pattern == StarryString(text, classes, normalize)) || c == NumberEquals(NumberString(text, classes))
  {
    if SearchPredicate(searchText, classes, normalize).Some? {
      var clauses := SearchPredicate(searchText, classes, normalize).value;
      var starry := StarryString(searchText.value, classes, normalize);
      forall a: Attribute ensures Like(a, starry) in clauses {
        match a
        case SafeTitleNormalized => assert clauses[0] == Like(a, starry);
        case AlternateTextNormalized => assert clauses[2] == Like(a, starry);
        case TranscriptNormalized => assert clauses[3] == Like(a, starry);
        case LinkNormalized => assert clauses[4] == Like(a, starry);
      }
    }
  }

  const Apostrophe: char := '\U{2019}'

  /** `s.index(s.startIndex, offsetBy: k)`; None where the offset passes `endIndex`, which traps. */
  function IndexFromStart(s: string, k: nat): (index: Option<nat>)
    ensures index.Some? <==> k <= |s|
    ensures index.Some? ==> index.value == k
  {
    if k <= |s| then Some(k) else None
  }

  /**
   * `s.replacingCharacters(in: lower...upper, with: replacement)`; None where
   * the closed range reaches `endIndex` or beyond, which traps.
   */
  function ReplacingCharacters(s: string, lower: nat, upper: nat, replacement: string): (r: Option<string>)
    requires lower <= upper
    ensures r.Some? <==> upper < |s|
    ensures r.Some? ==> |r.value| == |s| - (upper + 1 - lower) + |replacement|
  {
    if upper < |s| then Some(s[..lower] + replacement + s[upper + 1..]) else None
  }

  /** The characters before the range stay, the replacement follows, then the characters after the range. */
  lemma ReplacingCharactersParts(s: string, lower: nat, upper: nat, replacement: string)
    requires lower <= upper < |s|
    ensures var r := ReplacingCharacters(s, lower, upper, replacement).value;
      && r[..lower] == s[..lower]
      && r[lower..lower + |replacement|] == replacement
      && r[lower + |replacement|..] == s[upper + 1..]
  {
    var r := s[..lower] + replacement + s[upper + 1..];
    assert r[..lower] == s[..lower];
    assert r[lower..lower + |replacement|] == replacement;
    assert r[lower + |replacement|..] == s[upper + 1..];
  }

  /**
   * `sectionIndexTitleForSectionName`: the closed range from the first
   * character to the one after it replaced by a right single quotation mark.
   */
  function SectionIndexTitle(sectionName: string): (title: Option<string>)
    ensures title.Some? <==> |sectionName| >= 2
    ensures title.Some? ==> |title.value| == |sectionName| - 1
  {
    var second :- IndexFromStart(sectionName, 1);
    ReplacingCharacters(sectionName, 0, second, [Apostrophe])
  }

  /** The title exists exactly for names of two characters or more: the quote mark, then the name after its first two characters, one character shorter. */
  lemma SectionIndexTitleShape(sectionName: string)
    ensures SectionIndexTitle(sectionName).Some? <==> |sectionName| >= 2
    ensures SectionIndexTitle(sectionName).Some? ==>
      var title := SectionIndexTitle(sectionName).value;
      && title[0] == Apostrophe
      && title[1..] == sectionName[2..]
      && |title| == |sectionName| - 1
  {
    if |sectionName| >= 2 {
      ReplacingCharactersParts(sectionName, 0, 1, [Apostrophe]);
      var title := SectionIndexTitle(sectionName).value;
      assert title[0..1] == [Apostrophe];
    }
  }

  /** A year section such as "2018" is indexed as "’18". */
  lemma SectionIndexTitleOfYear()
    ensures SectionIndexTitle("2018") == Some([Apostrophe, '1', '8'])
  {
    SectionIndexTitleShape("2018");
    var title := SectionIndexTitle("2018").value;
    assert "2018"[2..] == ['1', '8'];
    assert |title| == 3 && title[1..] == ['1', '8'];
    assert title == [title[0]] + title[1..];
    assert title == [Apostrophe, '1', '8'];
  }
}
