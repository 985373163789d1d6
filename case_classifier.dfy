/**
 * The naming-convention predicate `is_snake_case` of the `snakecasejs` rule
 * (plugin.js:15-20). The source tests two anchored regular expressions,
 *   ^_*[a-z]+(_[a-z]+)*$   and   ^_*[A-Z]+(_[A-Z]+)*$ ;
 * here each is an explicit recursive predicate over the characters of the
 * name, and an independent, declarative description of the same language is
 * proved equivalent to it.
 */
module CaseClassifier {

  /** The character class `[a-z]`: ASCII lower-case letters only. */
  predicate IsLower(c: char) {
    'a' <= c <= 'z'
  }

  /** The character class `[A-Z]`: ASCII upper-case letters only. */
  predicate IsUpper(c: char) {
    'A' <= c <= 'Z'
  }

  /** Which of the two accepted conventions a pattern is about. */
  datatype LetterCase = Lower | Upper

  predicate InCase(c: char, k: LetterCase) {
    match k
    case Lower => IsLower(c)
    case Upper => IsUpper(c)
  }

  /**
   * `L+(_L+)*`, anchored at both ends, where L is the letter class of `k`:
   * a letter, then either the end, more of the same segment, or one
   * underscore followed by further segments.
   */
  predicate Segments(s: string, k: LetterCase)
    decreases |s|
  {
    && |s| > 0
    && InCase(s[0], k)
    && (|s| == 1 || if s[1] == '_' then Segments(s[2..], k) else Segments(s[1..], k))
  }

  /** `^_*L+(_L+)*$`: any number of leading underscores, then `Segments`. */
  predicate Anchored(s: string, k: LetterCase) {
    |s| > 0 && if s[0] == '_' then Anchored(s[1..], k) else Segments(s, k)
  }

  /** plugin.js:15-20: the name is snake_case or SCREAMING_SNAKE_CASE. */
  predicate IsSnakeCase(name: string) {
    Anchored(name, Lower) || Anchored(name, Upper)
  }

  /** The length of the run of underscores that starts the string. */
  function LeadingUnderscores(s: string): (n: nat)
    ensures n <= |s|
    ensures forall i :: 0 <= i < n ==> s[i] == '_'
    ensures n < |s| ==> s[n] != '_'
  {
    if |s| > 0 && s[0] == '_' then 1 + LeadingUnderscores(s[1..]) else 0
  }

  /** No two adjacent underscores anywhere in `s`. */
  predicate NoDoubleUnderscore(s: string) {
    forall i :: 0 <= i < |s| - 1 && s[i] == '_' ==> s[i + 1] != '_'
  }

  /**
   * Declarative description of `L+(_L+)*`: non-empty, made of letters of
   * class `k` and underscores only, starting and ending with a letter, and
   * never two underscores in a row.
   */
  ghost predicate SegmentShape(t: string, k: LetterCase) {
    && |t| > 0
    && InCase(t[0], k)
    && InCase(t[|t| - 1], k)
    && (forall i :: 0 <= i < |t| ==> InCase(t[i], k) || t[i] == '_')
    && NoDoubleUnderscore(t)
  }

  lemma {:induction false} SegmentsIff(t: string, k: LetterCase)
    ensures Segments(t, k) <==> SegmentShape(t, k)
    decreases |t|
  {
    if |t| <= 1 {
    } else if t[1] == '_' {
      var rest := t[2..];
      SegmentsIff(rest, k);
      if SegmentShape(t, k) {
        assert t[1] == '_' ==> t[2] != '_';
        assert forall i :: 0 <= i < |rest| ==> rest[i] == t[i + 2];
        assert |rest| > 0 && InCase(rest[0], k);
      }
      if Segments(t, k) {
        assert forall i :: 0 <= i < |rest| ==> rest[i] == t[i + 2];
        assert forall i :: 2 <= i < |t| ==> t[i] == rest[i - 2];
      }
    } else {
      var rest := t[1..];
      SegmentsIff(rest, k);
      if SegmentShape(t, k) {
        assert forall i :: 0 <= i < |rest| ==> rest[i] == t[i + 1];
      }
      if Segments(t, k) {
        assert forall i :: 1 <= i < |t| ==> t[i] == rest[i - 1];
      }
    }
  }

  lemma {:induction false} AnchoredIff(s: string, k: LetterCase)
    ensures Anchored(s, k) <==> SegmentShape(s[LeadingUnderscores(s)..], k)
    decreases |s|
  {
    if |s| == 0 {
    } else if s[0] == '_' {
      AnchoredIff(s[1..], k);
      assert s[LeadingUnderscores(s)..] == s[1..][LeadingUnderscores(s[1..])..];
    } else {
      SegmentsIff(s, k);
    }
  }

  /**
   * The classifier accepts exactly the names made of leading underscores
   * followed by letter segments of one case joined by single underscores.
   */
  lemma IsSnakeCaseIff(name: string)
    ensures IsSnakeCase(name) <==>
      var body := name[LeadingUnderscores(name)..];
      SegmentShape(body, Lower) || SegmentShape(body, Upper)
  {
    AnchoredIff(name, Lower);
    AnchoredIff(name, Upper);
  }

  /** An identifier of underscores only (the empty one included) is rejected. */
  lemma RejectsOnlyUnderscores(name: string)
    requires forall i :: 0 <= i < |name| ==> name[i] == '_'
    ensures !IsSnakeCase(name)
  {
    IsSnakeCaseIff(name);
    assert LeadingUnderscores(name) == |name|;
  }

  /** A trailing underscore is rejected. */
  lemma RejectsTrailingUnderscore(name: string)
    requires |name| > 0 && name[|name| - 1] == '_'
    ensures !IsSnakeCase(name)
  {
    IsSnakeCaseIff(name);
    var n := LeadingUnderscores(name);
    if n < |name| {
      var body := name[n..];
      assert body[|body| - 1] == '_';
    }
  }

  /** Two underscores in a row after the first letter are rejected. */
  lemma RejectsInnerDoubleUnderscore(name: string, j: nat, i: nat)
    requires j < i < |name| - 1
    requires name[j] != '_' && name[i] == '_' && name[i + 1] == '_'
    ensures !IsSnakeCase(name)
  {
    IsSnakeCaseIff(name);
    var n := LeadingUnderscores(name);
    assert n <= j;
    var body := name[n..];
    assert body[i - n] == '_' && body[i - n + 1] == '_';
  }

  /** A character that is neither an ASCII letter nor an underscore (a digit, `$`, ...) is rejected. */
  lemma RejectsForeignCharacter(name: string, i: nat)
    requires i < |name|
    requires !IsLower(name[i]) && !IsUpper(name[i]) && name[i] != '_'
    ensures !IsSnakeCase(name)
  {
    IsSnakeCaseIff(name);
    var n := LeadingUnderscores(name);
    assert n <= i;
    var body := name[n..];
    assert body[i - n] == name[i];
  }

  /** A name that mixes lower-case and upper-case letters is rejected. */
  lemma RejectsMixedCase(name: string, i: nat, j: nat)
    requires i < |name| && j < |name|
    requires IsLower(name[i]) && IsUpper(name[j])
    ensures !IsSnakeCase(name)
  {
    IsSnakeCaseIff(name);
    var n := LeadingUnderscores(name);
    assert n <= i && n <= j;
    var body := name[n..];
    assert body[i - n] == name[i] && body[j - n] == name[j];
  }

  /** Names the rule leaves alone, and names it flags. */
  lemma Examples()
    ensures IsSnakeCase("foo") && IsSnakeCase("my_var") && IsSnakeCase("FOO_BAR") && IsSnakeCase("__foo")
    ensures !IsSnakeCase("myVar") && !IsSnakeCase("foo__bar") && !IsSnakeCase("foo_") && !IsSnakeCase("value1")
  {

  }
}
