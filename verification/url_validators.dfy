/**
 Model of the URL validators of `cms/forms/validators.py`: the extended
 absolute-URL validator (`ExtraURLValidator`) with its telephone fallback, and
 the relative-then-absolute dispatch of `validate_url`.

 The framework pieces the validators lean on are not modelled: Django's
 `URLValidator`, the relative-URL regular expression and `urlparse` are
 supplied as an `UrlOracles` value and treated as uninterpreted.

 Because `urlsplit` ends the network location at the first `/`, `?` or `#`,
 a netloc handed to `tel_re` never contains `#`; the `#` of the character
 class is kept because the pattern lists it.
 */
module UrlValidators {
  import opened Wrappers

  /** Outcome of a Django validator: it passes, or raises `ValidationError` carrying a message. */
  datatype Outcome = Valid | Invalid(message: string)

  /**
   Outcome of the validators defined here: they pass, raise `ValidationError`,
   or let through the `ValueError` that `urlparse` raises on a malformed
   network location (an unbalanced `[` or `]`, as in `tel://[12`). That
   exception is not a `ValidationError`, so no `except` clause here catches it.
   */
  datatype UrlOutcome = UrlValid | UrlInvalid(message: string) | UrlParseError

  /** The two components of `urlparse`'s result that the validator inspects. */
  datatype ParsedUrl = ParsedUrl(scheme: string, netloc: string)

  /**
   The external checks, as opaque total functions:
   - `baseSchemes`: the scheme list Django's `URLValidator` starts from;
   - `base`: Django's `URLValidator` configured with a scheme list, applied to a value;
   - `relative`: whether a value matches the site-relative URL pattern;
   - `parse`: `urlparse`, reduced to scheme and network location, or `None`
     when it raises `ValueError`.
   */
  datatype UrlOracles = UrlOracles(
    baseSchemes: seq<string>,
    base: (seq<string>, string) -> Outcome,
    relative: string -> bool,
    parse: string -> Option<ParsedUrl>)
  {
    /** The inherited `URLValidator.__call__`, run with the subclass's scheme list. */
    function BaseCheck(value: string): Outcome {
      base(ExtendedSchemes(baseSchemes), value)
    }
  }

  /** The schemes `ExtraURLValidator` appends to the inherited list. */
  const ExtraSchemes: seq<string> :=
    ["sftp", "webdav", "webdavs", "afp", "smb", "git", "svn", "hg", "mailto", "tel"]

  /** `ExtraURLValidator.schemes`: the inherited schemes followed by the extra ones. */
  function ExtendedSchemes(baseSchemes: seq<string>): (r: seq<string>)
    ensures |r| == |baseSchemes| + |ExtraSchemes|
    ensures r[..|baseSchemes|] == baseSchemes
    ensures forall s :: s in r <==> s in baseSchemes || s in ExtraSchemes
  {
    baseSchemes + ExtraSchemes
  }

  /** The character class `[0-9\+\#\*\-\.\(\)]` of `tel_re`. */
  predicate IsTelChar(c: char) {
    ('0' <= c <= '9') || c == '+' || c == '#' || c == '*' || c == '-' || c == '.' || c == '(' || c == ')'
  }

  /** A non-empty run of telephone characters, i.e. `[...]+` matched against all of `t`. */
  predicate IsTelRun(t: string) {
    |t| > 0 && forall k :: 0 <= k < |t| ==> IsTelChar(t[k])
  }

  /**
   `re.match(tel_re, netloc)` succeeds. The match is anchored at the start by
   `re.match` and `^`; Python's `$` (without MULTILINE) matches at the end of
   the string or just before a single newline that ends it.
   */
  predicate TelPattern(netloc: string) {
    IsTelRun(netloc) || (|netloc| > 0 && netloc[|netloc| - 1] == '\n' && IsTelRun(netloc[..|netloc| - 1]))
  }

  /** For a network location without a newline, `tel_re` is exactly "non-empty and only telephone characters". */
  lemma TelPatternWithoutNewline(netloc: string)
    requires '\n' !in netloc
    ensures TelPattern(netloc) <==> |netloc| > 0 && forall k :: 0 <= k < |netloc| ==> IsTelChar(netloc[k])
  {
    if |netloc| > 0 {
      assert netloc[|netloc| - 1] in netloc;
    }
  }

  /** The telephone character class written out as a literal set of characters. */
  lemma TelCharsAreListed(c: char)
    ensures IsTelChar(c) <==> c in "0123456789+#*-.()"
  {
  }

  /**
   The matcher a regular-expression engine runs for `^[...]+$`: consume
   telephone characters greedily, require at least one, then require the end of
   the string or a final newline.
   */
  method MatchTel(netloc: string) returns (matched: bool)
    ensures matched <==> TelPattern(netloc)
    ensures matched && '\n' !in netloc ==> forall k :: 0 <= k < |netloc| ==> IsTelChar(netloc[k])
  {
    var pos := 0;
    while pos < |netloc| && IsTelChar(netloc[pos])
      invariant 0 <= pos <= |netloc|
      invariant forall k :: 0 <= k < pos ==> IsTelChar(netloc[k])
    {
      pos := pos + 1;
    }
    matched := pos > 0 && (pos == |netloc| || (pos == |netloc| - 1 && netloc[pos] == '\n'));
    if pos < |netloc| {
      // The scan stopped on a non-telephone character, so no run covers it.
      assert !IsTelChar(netloc[pos]);
      assert !IsTelRun(netloc);
      if pos < |netloc| - 1 {
        assert netloc[..|netloc| - 1][pos] == netloc[pos];
      } else {
        assert netloc[..|netloc| - 1] == netloc[..pos];
      }
    }
  }

  /** The telephone fallback: `urlparse` succeeds with scheme `tel` and a netloc matching `tel_re`. */
  predicate IsTelUrl(parsed: Option<ParsedUrl>) {
    parsed.Some? && parsed.value.scheme == "tel" && TelPattern(parsed.value.netloc)
  }

  /**
   `ExtraURLValidator()(value)`: whatever the inherited validator accepts is
   accepted; a rejected value is still accepted when it parses as a telephone
   URL, a value `urlparse` cannot split raises its `ValueError`, and otherwise
   the inherited error is raised again unchanged.
   */
  function ExtraUrlCheck(o: UrlOracles, value: string): (r: UrlOutcome)
    ensures r.UrlValid? <==> o.BaseCheck(value).Valid? || IsTelUrl(o.parse(value))
    ensures r.UrlParseError? <==> o.BaseCheck(value).Invalid? && o.parse(value).None?
    ensures r.UrlInvalid? ==> o.BaseCheck(value) == Invalid(r.message)
  {
    match o.BaseCheck(value)
    case Valid => UrlValid
    case Invalid(message) =>
      match o.parse(value)
      case None => UrlParseError
      case Some(parsed) =>
        if IsTelUrl(Some(parsed)) then UrlValid else UrlInvalid(message)
  }

  /**
   Corollary of `ExtraUrlCheck`'s contract, stated on its own: the extended
   validator accepts a superset of what the inherited validator accepts.
   */
  lemma ExtraAcceptsSuperset(o: UrlOracles)
    ensures forall v :: o.BaseCheck(v).Valid? ==> ExtraUrlCheck(o, v).UrlValid?
  {
  }

  /**
   Corollary of `ExtraUrlCheck`'s contract, stated on its own: a value the
   inherited validator rejects is accepted only through the telephone
   fallback, with a non-empty netloc, and otherwise fails with either the
   inherited message or the parse error.
   */
  lemma RejectedUnlessTel(o: UrlOracles, value: string)
    requires o.BaseCheck(value).Invalid?
    ensures ExtraUrlCheck(o, value).UrlValid? ==>
      o.parse(value).Some? && o.parse(value).value.scheme == "tel" && |o.parse(value).value.netloc| > 0
    ensures ExtraUrlCheck(o, value).UrlInvalid? ==> ExtraUrlCheck(o, value).message == o.BaseCheck(value).message
  {
  }

  /** `validate_url(value)`: the relative pattern is tried first, the extended absolute validator second. */
  function ValidateUrl(o: UrlOracles, value: string): (r: UrlOutcome)
    ensures r.UrlValid? <==> o.relative(value) || ExtraUrlCheck(o, value).UrlValid?
    ensures r.UrlParseError? <==> !o.relative(value) && o.BaseCheck(value).Invalid? && o.parse(value).None?
    ensures r.UrlInvalid? ==> o.BaseCheck(value) == Invalid(r.message)
  {
    if o.relative(value) then UrlValid else ExtraUrlCheck(o, value)
  }

  /**
   When the relative pattern accepts a value, the absolute validator is never
   consulted: the outcome is the same whatever the other oracles say.
   */
  lemma RelativeShortCircuits(o1: UrlOracles, o2: UrlOracles, value: string)
    requires o1.relative(value) && o2.relative(value)
    ensures ValidateUrl(o1, value) == ValidateUrl(o2, value) == UrlValid
  {
  }

  /**
   A telephone URL the inherited validator rejects is still accepted:
   `urlparse` ends the netloc of `tel://+1(555)123-45#6` at the `#`.
   */
  lemma TelExample()
    ensures ExtraUrlCheck(
      UrlOracles([], (schemes, v) => Invalid("Enter a valid URL."), v => false,
                 v => Some(ParsedUrl("tel", "+1(555)123-45"))),
      "tel://+1(555)123-45#6") == UrlValid
  {
    var n := "+1(555)123-45";
    assert IsTelRun(n);
  }

  /**
   `tel://[12` is rejected by the inherited validator and makes `urlparse`
   raise; that `ValueError` comes out of `validate_url` instead of a
   validation error.
   */
  lemma ParseErrorEscapes()
    ensures ValidateUrl(
      UrlOracles([], (schemes, v) => Invalid("Enter a valid URL."), v => false, v => None),
      "tel://[12") == UrlParseError
  {
  }
}
