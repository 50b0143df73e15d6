/** CityValidator.validate and the normalisation AdvisoryService builds on it: an ordered chain
    of guards that accepts a raw city name or rejects it with one of three messages. */
module CityValidator {
  import opened Wrappers
  import opened JavaText

  datatype ValidationError = CityRequired | TooShort | InvalidCharacters

  /** The message each ValidationException carries. */
  function Message(e: ValidationError): string {
    match e
    case CityRequired => "City is required"
    case TooShort => "City name too short"
    case InvalidCharacters => "City must contain only letters and spaces"
  }

  /** The character class of the regular expression [a-zA-Z ]. */
  predicate IsCityChar(c: char) {
    IsLetter(c) || c == ' '
  }

  predicate AllCityChars(s: string) {
    forall i :: 0 <= i < |s| ==> IsCityChar(s[i])
  }

  /** validate: None when the name is accepted, Some(error) for the first guard that fails.
      A null argument is None in the parameter. The length guard counts UTF-16 code units, as
      String.length() does. */
  function Validate(city: Option<string>): (r: Option<ValidationError>)
    ensures city.None? ==> r == Some(CityRequired)
    ensures city.Some? && IsBlank(city.value) ==> r == Some(CityRequired)
  {
    if city.None? || IsBlank(city.value) then Some(CityRequired)
    else
      var normalized := Trim(city.value);
      if Utf16Length(normalized) < 3 then Some(TooShort)
      else if !AllCityChars(normalized) then Some(InvalidCharacters)
      else None
  }

  /** The three rejections, each exactly characterised, in the order the guards run. */
  lemma ValidateCases(s: string)
    ensures Validate(Some(s)) == Some(CityRequired) <==> IsBlank(s)
    ensures Validate(Some(s)) == Some(TooShort) <==> !IsBlank(s) && Utf16Length(Trim(s)) < 3
    ensures (Validate(Some(s)) == Some(InvalidCharacters)) <==>
              (!IsBlank(s) && Utf16Length(Trim(s)) >= 3 && exists i :: 0 <= i < |Trim(s)| && !IsCityChar(Trim(s)[i]))
    ensures (Validate(Some(s)) == None) <==> (!IsBlank(s) && Utf16Length(Trim(s)) >= 3 && AllCityChars(Trim(s)))
  {
  }

  /** An accepted name, once trimmed, has at least three characters, all ASCII letters or
      spaces, and starts and ends with a letter. */
  lemma AcceptedShape(s: string)
    requires Validate(Some(s)) == None
    ensures var t := Trim(s); |t| >= 3 && AllCityChars(t) && IsLetter(t[0]) && IsLetter(t[|t| - 1])
  {
  }

  /** Any run of characters up to U+0020 around a non-blank name leaves the verdict unchanged:
      every guard after the blank check judges the trimmed string. */
  lemma PaddingIrrelevant(ws1: string, s: string, ws2: string)
    requires AllTrimmable(ws1) && AllTrimmable(ws2)
    requires !IsBlank(s)
    ensures Validate(Some(ws1 + s + ws2)) == Validate(Some(s))
  {
    TrimIgnoresPadding(ws1, s, ws2);
    var i :| 0 <= i < |s| && !IsWhitespace(s[i]);
    assert (ws1 + s + ws2)[|ws1| + i] == s[i];
  }

  /** In particular surrounding whitespace alone never turns an accepted name into a rejected one. */
  lemma PaddingKeepsAccepted(ws1: string, s: string, ws2: string)
    requires AllTrimmable(ws1) && AllTrimmable(ws2)
    requires Validate(Some(s)) == None
    ensures Validate(Some(ws1 + s + ws2)) == None
  {
    PaddingIrrelevant(ws1, s, ws2);
  }

  /** The length guard runs before the character guard: "a1" is too short, not ill-formed. */
  lemma ShortBeforeCharset(s: string)
    requires s == "a1"
    ensures Validate(Some(s)) == Some(TooShort)
  {
    assert !IsWhitespace(s[0]);
    TrimOfPadded([], s, []);
    assert [] + s + [] == s;
  }

  /** A name long enough, with a digit in it, fails on the character guard. */
  lemma DigitIsInvalid(s: string)
    requires s == "ab1"
    ensures Validate(Some(s)) == Some(InvalidCharacters)
  {
    assert !IsWhitespace(s[0]);
    assert !IsCityChar(s[2]);
    TrimOfPadded([], s, []);
    assert [] + s + [] == s;
  }

  /** The length guard counts UTF-16 code units: an emoji (a surrogate pair) and a letter make
      three units, so the name is long enough and fails on the character guard instead. */
  lemma SurrogatePairCountsTwice(s: string)
    requires s == "\U{1F600}a"
    ensures Utf16Length(Trim(s)) == 3
    ensures Validate(Some(s)) == Some(InvalidCharacters)
  {
    assert !IsWhitespace(s[0]);
    TrimOfPadded([], s, []);
    assert [] + s + [] == s;
    assert s[..1] == "\U{1F600}";
    assert !IsCityChar(s[0]);
  }

  /** Spaces alone are a missing city, not a short one. */
  lemma SpacesAreMissing(s: string)
    requires s == "   "
    ensures Validate(Some(s)) == Some(CityRequired)
  {
  }

  /** AdvisoryService.normalize: validate, then trim and lower-case. */
  function Normalize(city: Option<string>): (r: Result<string, ValidationError>)
    ensures r.Failure? <==> Validate(city).Some?
    ensures r.Failure? ==> r.error == Validate(city).value
  {
    match Validate(city)
    case Some(e) => Failure(e)
    case None => Success(ToLower(Trim(city.value)))
  }

  /** The shape of a key: at least three lower-case letters and spaces, beginning and ending
      with a letter. */
  predicate IsKey(k: string) {
    && |k| >= 3 && IsLower(k[0]) && IsLower(k[|k| - 1])
    && forall i :: 0 <= i < |k| ==> IsLower(k[i]) || k[i] == ' '
  }

  /** A key is its own trim and its own lower-case form, and the validator accepts it. */
  lemma KeyIsFixedPoint(k: string)
    requires IsKey(k)
    ensures Trim(k) == k && ToLower(k) == k
    ensures Validate(Some(k)) == None
  {
    KeyTrimmed(k);
    NoCapitals(k);
    assert !IsWhitespace(k[0]);
    assert AllCityChars(k);
  }

  lemma KeyTrimmed(k: string)
    requires IsKey(k)
    ensures Trim(k) == k
  {
    TrimOfPadded([], k, []);
    assert [] + k + [] == k;
  }

  lemma LowerOfAccepted(t: string)
    requires |t| >= 3 && AllCityChars(t) && IsLetter(t[0]) && IsLetter(t[|t| - 1])
    ensures IsKey(ToLower(t))
  {
    var k := ToLower(t);
    forall i | 0 <= i < |k| ensures IsLower(k[i]) || k[i] == ' ' {
      assert k[i] == LowerChar(t[i]) && IsCityChar(t[i]);
    }
    assert k[0] == LowerChar(t[0]) && k[|k| - 1] == LowerChar(t[|t| - 1]);
  }

  /** A normalised key has the key shape and is accepted by the validator itself. */
  lemma NormalizedKeyShape(s: string)
    requires Normalize(Some(s)).Success?
    ensures IsKey(Normalize(Some(s)).value)
    ensures Validate(Some(Normalize(Some(s)).value)) == None
  {
    AcceptedShape(s);
    LowerOfAccepted(Trim(s));
    KeyIsFixedPoint(ToLower(Trim(s)));
  }

  /** normalize is idempotent: a key normalises to itself. */
  lemma NormalizeIdempotent(s: string)
    requires Normalize(Some(s)).Success?
    ensures Normalize(Some(Normalize(Some(s)).value)) == Normalize(Some(s))
  {
    NormalizedKeyShape(s);
    KeyIsFixedPoint(Normalize(Some(s)).value);
  }
}
