/**
 Model of `validate_url_uniqueness` in `cms/forms/validators.py`: the URL
 check on paths containing a separator, the stripping of `/` from both ends,
 the exclusion of the page being edited and its public counterpart, and the
 choice of the conflict that is reported.

 The database lookup `get_all_pages_from_path(site, path, language)` is
 supplied as a function from the stripped path to the page records it
 returns, in the order the query yields them; site and language are fixed
 inside it.
 */
module UrlUniqueness {
  import opened Wrappers
  import opened UrlValidators

  /** The columns of a page row that the check reads. */
  datatype PageRecord = PageRecord(
    pk: int,
    publisherPublicId: Option<int>,
    isDraft: bool,
    isPageType: bool)

  /** The admin change view the conflict link points at. */
  datatype Route = PageTypeChange | PageChange

  /**
   Which message text is used: while editing an existing page the message
   names that page as the current instance; otherwise it does not.
   */
  datatype Variant = AsCurrentInstance(instance: PageRecord) | AsCurrentPage

  /**
   Result of the uniqueness check: the `True` return, the validation error of
   `validate_url`, the `ValueError` of `urlparse` that escapes it, or the
   conflict error.
   */
  datatype Uniqueness =
    | Available
    | InvalidUrl(message: string)
    | UnparsableUrl
    | Conflict(page: PageRecord, editId: Option<int>, route: Route, url: string, variant: Variant)

  // ---------------------------------------------------------------------
  // Stripping `/` from both ends (`str.strip('/')`)
  // ---------------------------------------------------------------------

  /** Every character of `s` is a `/`. */
  predicate AllSlashes(s: string) {
    forall k :: 0 <= k < |s| ==> s[k] == '/'
  }

  /** `s` neither starts nor ends with `/`. */
  predicate Unslashed(s: string) {
    |s| == 0 || (s[0] != '/' && s[|s| - 1] != '/')
  }

  /** `s.lstrip('/')`: the suffix left after dropping every leading `/`. */
  function TrimLeft(s: string): (r: string)
    ensures |r| <= |s| && r == s[|s| - |r|..]
    ensures AllSlashes(s[..|s| - |r|])
    ensures |r| == 0 || r[0] != '/'
    decreases |s|
  {
    if |s| > 0 && s[0] == '/' then TrimLeft(s[1..]) else s
  }

  /** `s.rstrip('/')`: the prefix left after dropping every trailing `/`. */
  function TrimRight(s: string): (r: string)
    ensures |r| <= |s| && r == s[..|r|]
    ensures AllSlashes(s[|r|..])
    ensures |r| == 0 || r[|r| - 1] != '/'
    decreases |s|
  {
    if |s| > 0 && s[|s| - 1] == '/' then TrimRight(s[..|s| - 1]) else s
  }

  /** `s.strip('/')`. */
  function Strip(s: string): (r: string)
    ensures Unslashed(r)
    ensures |r| <= |s|
  {
    TrimRight(TrimLeft(s))
  }

  /**
   `r` is what is left of `s` once the slashes `s[..i]` and `s[i + |r|..]`
   are cut off, and `r` has no `/` at either end: an independent description
   of stripping.
   */
  predicate StripsTo(s: string, i: int, r: string) {
    && 0 <= i && i + |r| <= |s|
    && r == s[i..i + |r|]
    && AllSlashes(s[..i])
    && AllSlashes(s[i + |r|..])
    && Unslashed(r)
  }

  /** The stripped path is a contiguous piece of the input with only slashes around it. */
  lemma StripIsInfix(s: string)
    ensures StripsTo(s, |s| - |TrimLeft(s)|, Strip(s))
  {
    var t := TrimLeft(s);
    var i := |s| - |t|;
    var r := Strip(s);
    assert t == s[i..];
    assert r == t[..|r|];
    assert r == s[i..i + |r|];
    assert t[|r|..] == s[i + |r|..];
  }

  /** Stripping is the only way to cut slashes off both ends and reach an unslashed string. */
  lemma StripsToIsUnique(s: string, i: int, r: string)
    requires StripsTo(s, i, r)
    ensures r == Strip(s)
  {
    StripIsInfix(s);
    var a := |s| - |TrimLeft(s)|;
    var m := Strip(s);
    if |r| == 0 {
      // `s` is made of slashes only, so nothing survives stripping.
      assert forall k :: 0 <= k < |s| ==> s[k] == '/' by {
        forall k | 0 <= k < |s|
          ensures s[k] == '/'
        {
          if k < i {
            assert s[..i][k] == s[k];
          } else {
            assert s[i..][k - i] == s[k];
          }
        }
      }
      assert |m| == 0;
    } else {
      // The first non-slash character of `s` starts both `r` and the stripped string.
      assert s[i] == r[0];
      assert a == i;
      // Both end right after the last non-slash character of `s`.
      var e := i + |r|;
      var f := a + |m|;
      assert s[e - 1] == r[|r| - 1];
      if |m| > 0 {
        assert s[f - 1] == m[|m| - 1];
      }
      assert e == f;
    }
  }

  /** Stripping again changes nothing. */
  lemma StripIdempotent(s: string)
    ensures Strip(Strip(s)) == Strip(s)
  {
  }

  // ---------------------------------------------------------------------
  // Excluding the page being edited
  // ---------------------------------------------------------------------

  /** Python truthiness of `publisher_public_id`: `None` and `0` are false. */
  predicate IsSetId(id: Option<int>) {
    id.Some? && id.value != 0
  }

  /** `pages.exclude(pk=pk)`: drop the records with that primary key, keeping the order of the others. */
  function ExcludePk(pages: seq<PageRecord>, pk: int): (r: seq<PageRecord>)
    ensures |r| <= |pages|
    ensures forall p :: p in r <==> p in pages && p.pk != pk
  {
    if |pages| == 0 then []
    else if pages[0].pk == pk then ExcludePk(pages[1..], pk)
    else [pages[0]] + ExcludePk(pages[1..], pk)
  }

  /**
   The records left after lines 66-70: with an edited page, first its own
   primary key is excluded, then its public counterpart's when that id is set.
   */
  function Remaining(pages: seq<PageRecord>, exclude: Option<PageRecord>): (r: seq<PageRecord>)
    ensures |r| <= |pages|
    ensures forall p :: p in r <==> p in pages && Survives(p, exclude)
  {
    match exclude
    case None => pages
    case Some(e) =>
      var withoutSelf := ExcludePk(pages, e.pk);
      if IsSetId(e.publisherPublicId) then ExcludePk(withoutSelf, e.publisherPublicId.value)
      else withoutSelf
  }

  /** A record survives the exclusion: it is neither the edited page nor its public counterpart. */
  predicate Survives(p: PageRecord, exclude: Option<PageRecord>) {
    match exclude
    case None => true
    case Some(e) => p.pk != e.pk && !(IsSetId(e.publisherPublicId) && p.pk == e.publisherPublicId.value)
  }

  /** Dropping the first record from the lookup drops it from the remaining records when it survives. */
  lemma RemainingCons(pages: seq<PageRecord>, exclude: Option<PageRecord>)
    requires |pages| > 0
    ensures Remaining(pages, exclude)
         == (if Survives(pages[0], exclude) then [pages[0]] else []) + Remaining(pages[1..], exclude)
  {
    if exclude.Some? {
      var e := exclude.value;
      var tail := ExcludePk(pages[1..], e.pk);
      if pages[0].pk != e.pk {
        assert ExcludePk(pages, e.pk) == [pages[0]] + tail;
        assert ([pages[0]] + tail)[1..] == tail;
      }
    }
  }

  /** The index of the first record that survives the exclusion, or `|pages|` when none does. */
  function FirstSurvivor(pages: seq<PageRecord>, exclude: Option<PageRecord>): (i: nat)
    ensures i <= |pages|
    ensures forall j :: 0 <= j < i ==> !Survives(pages[j], exclude)
    ensures i < |pages| ==> Survives(pages[i], exclude)
  {
    if |pages| == 0 then 0
    else if Survives(pages[0], exclude) then 0
    else 1 + FirstSurvivor(pages[1..], exclude)
  }

  /**
   The first remaining record is the first surviving record of the lookup, and
   records remain exactly when some record survives.
   */
  lemma {:induction false} RemainingHead(pages: seq<PageRecord>, exclude: Option<PageRecord>)
    ensures |Remaining(pages, exclude)| > 0 <==> FirstSurvivor(pages, exclude) < |pages|
    ensures |Remaining(pages, exclude)| > 0 ==>
      Remaining(pages, exclude)[0] == pages[FirstSurvivor(pages, exclude)]
  {
    if |pages| > 0 {
      RemainingCons(pages, exclude);
      if !Survives(pages[0], exclude) {
        RemainingHead(pages[1..], exclude);
      }
    }
  }

  // ---------------------------------------------------------------------
  // The uniqueness check
  // ---------------------------------------------------------------------

  /**
   The id of the editable version of a conflicting record: its own primary key
   when it is a draft, otherwise the draft it points to.
   */
  function EditableId(p: PageRecord): Option<int> {
    if p.isDraft then Some(p.pk) else p.publisherPublicId
  }

  /** The admin change view for a record: the page-type view for page types, the page view otherwise. */
  function ChangeRoute(p: PageRecord): Route {
    if p.isPageType then PageTypeChange else PageChange
  }

  /**
   `validate_url_uniqueness(site, path, language, exclude_page)`, where
   `lookup` stands for `get_all_pages_from_path` on the fixed site and
   language. `Available` is the `True` return; the other two variants are the
   validation errors it raises.
   */
  function ValidateUrlUniqueness(
    o: UrlOracles, lookup: string -> seq<PageRecord>, path: string, exclude: Option<PageRecord>
  ): (r: Uniqueness)
    ensures r.InvalidUrl? <==> '/' in path && ValidateUrl(o, path).UrlInvalid?
    ensures r.InvalidUrl? ==> o.BaseCheck(path) == Invalid(r.message)
    ensures r.UnparsableUrl? <==> '/' in path && ValidateUrl(o, path).UrlParseError?
    ensures r.Available? <==>
      !('/' in path && !ValidateUrl(o, path).UrlValid?) && forall p :: p in lookup(Strip(path)) ==> !Survives(p, exclude)
    ensures r.Conflict? ==>
      && r.page in lookup(Strip(path))
      && Survives(r.page, exclude)
      && r.url == Strip(path)
      && (r.page.isDraft ==> r.editId == Some(r.page.pk))
      && (!r.page.isDraft ==> r.editId == r.page.publisherPublicId)
      && (r.route == PageTypeChange <==> r.page.isPageType)
      && (r.variant.AsCurrentInstance? <==> exclude.Some?)
      && (exclude.Some? ==> r.variant.instance == exclude.value)
  {
    if '/' in path && ValidateUrl(o, path).UrlInvalid? then
      InvalidUrl(ValidateUrl(o, path).message)
    else if '/' in path && ValidateUrl(o, path).UrlParseError? then
      UnparsableUrl
    else
      var url := Strip(path);
      var pages := Remaining(lookup(url), exclude);
      if |pages| == 0 then
        Available
      else
        var conflict := pages[0];
        assert conflict in pages;
        var variant := if exclude.Some? then AsCurrentInstance(exclude.value) else AsCurrentPage;
        Conflict(conflict, EditableId(conflict), ChangeRoute(conflict), url, variant)
  }

  /** The reported conflict is the first record of the lookup that survives the exclusion. */
  lemma ConflictIsFirstSurvivor(
    o: UrlOracles, lookup: string -> seq<PageRecord>, path: string, exclude: Option<PageRecord>)
    requires ValidateUrlUniqueness(o, lookup, path, exclude).Conflict?
    ensures var pages := lookup(Strip(path));
      var i := FirstSurvivor(pages, exclude);
      && i < |pages|
      && ValidateUrlUniqueness(o, lookup, path, exclude).page == pages[i]
  {
    RemainingHead(lookup(Strip(path)), exclude);
  }

  /** Neither the edited page nor its public counterpart is ever reported as the conflict. */
  lemma EditedPageNeverConflicts(
    o: UrlOracles, lookup: string -> seq<PageRecord>, path: string, e: PageRecord)
    requires ValidateUrlUniqueness(o, lookup, path, Some(e)).Conflict?
    ensures ValidateUrlUniqueness(o, lookup, path, Some(e)).page.pk != e.pk
    ensures IsSetId(e.publisherPublicId) ==>
      ValidateUrlUniqueness(o, lookup, path, Some(e)).page.pk != e.publisherPublicId.value
  {
  }

  /** A path without `/` is never URL-validated: the URL oracles cannot affect the result. */
  lemma NoSlashSkipsValidation(
    o1: UrlOracles, o2: UrlOracles, lookup: string -> seq<PageRecord>, path: string, exclude: Option<PageRecord>)
    requires '/' !in path
    ensures ValidateUrlUniqueness(o1, lookup, path, exclude) == ValidateUrlUniqueness(o2, lookup, path, exclude)
  {
  }

  /** A path with `/` that fails URL validation is refused before any lookup: the page records cannot affect the result. */
  lemma InvalidBeforeLookup(
    o: UrlOracles, lookup1: string -> seq<PageRecord>, lookup2: string -> seq<PageRecord>,
    path: string, exclude: Option<PageRecord>)
    requires '/' in path && !ValidateUrl(o, path).UrlValid?
    ensures ValidateUrlUniqueness(o, lookup1, path, exclude) == ValidateUrlUniqueness(o, lookup2, path, exclude)
    ensures ValidateUrlUniqueness(o, lookup1, path, exclude).InvalidUrl?
         || ValidateUrlUniqueness(o, lookup1, path, exclude).UnparsableUrl?
  {
  }

  /**
   Creating a page at `about/` when the only page at `about` is the public
   version of a page whose draft has id 4: the conflict names the draft.
   */
  lemma AboutExample()
    ensures
      var public := PageRecord(5, Some(4), false, false);
      var o := UrlOracles([], (schemes, v) => Invalid("Enter a valid URL."), v => true,
                          v => Some(ParsedUrl("", v)));
      ValidateUrlUniqueness(o, url => if url == "about" then [public] else [], "about/", None)
        == Conflict(public, Some(4), PageChange, "about", AsCurrentPage)
  {
    var s := "about/";
    assert s[5] == '/';
    assert TrimLeft(s) == s;
    assert TrimRight(s[..5]) == s[..5];
    assert s[..5] == "about";
  }
}
