# django-cms URL validators, modelled in Dafny

A functional model of the URL-validation helpers of django-cms in
`cms/forms/validators.py`:

- `ExtraURLValidator` — Django's `URLValidator` with a longer scheme list and a
  fallback that accepts `tel` URLs whose network location matches `tel_re`
  (`UrlValidators.ExtraUrlCheck`, with `tel_re` as `UrlValidators.TelPattern`
  and a scanning matcher `UrlValidators.MatchTel`);
- `validate_url` — the site-relative pattern first, the extended absolute
  validator second (`UrlValidators.ValidateUrl`);
- `validate_url_uniqueness` — URL validation of paths containing `/`,
  stripping `/` from both ends, excluding the page being edited and its
  public counterpart, and choosing the conflict that is reported
  (`UrlUniqueness.ValidateUrlUniqueness`).

The framework is kept outside the model. Django's `URLValidator` (with its
default scheme list), the relative-URL pattern and `urlparse` are fields of
`UrlValidators.UrlOracles`, opaque total functions the caller supplies. The
database query `get_all_pages_from_path(site, path, language)` is a function
from the stripped path to the page records it returns, in query order, with
site and language fixed inside it. A `ValidationError` is the `Invalid`
outcome of a validator, or the `InvalidUrl` / `Conflict` results of the
uniqueness check; `Available` is its `True` return. `urlparse` raises
`ValueError` on a network location with an unbalanced `[` or `]`; the `parse`
oracle returns `None` there, and that exception, which no `except
ValidationError` catches, comes out as `UrlParseError` / `UnparsableUrl`.

`urlsplit` ends the network location at the first `/`, `?` or `#`, so a netloc
that reaches `tel_re` never contains `#`: the `#` in the pattern's character
class can never be matched through `urlparse`. The model keeps the class as
written. A conflict is reported as
a `Conflict(page, editId, route, url, variant)` value instead of a rendered
HTML message.

Python truthiness is modelled as written: `if exclude_page:` holds for every
page instance (`exclude.Some?`), and `if exclude_page.publisher_public_id:`
is false for `None` and for `0` (`UrlUniqueness.IsSetId`).

## Model

| member | source | states |
|---|---|---|
| UrlValidators.ExtendedSchemes | cms/forms/validators.py:25-28 | The validator's scheme list keeps the inherited schemes first, in order, and contains exactly those plus sftp, webdav, webdavs, afp, smb, git, svn, hg, mailto and tel. |
| UrlValidators.UrlOracles.BaseCheck | cms/forms/validators.py:34 | The inherited `URLValidator` check is always run with the extended scheme list; what it accepts is pinned down only through `ExtraUrlCheck`'s contract, since the validator itself is library code. |
| UrlValidators.TelPatternWithoutNewline | cms/forms/validators.py:30 | For a network location without a newline, `tel_re` matches exactly when it is non-empty and every character is a digit or one of `+ # * - . ( )`. |
| UrlValidators.TelCharsAreListed | cms/forms/validators.py:30 | The character class of `tel_re` is exactly the seventeen characters `0123456789+#*-.()`. |
| UrlValidators.TelPattern | cms/forms/validators.py:30 | `re.match(tel_re, netloc)`: a non-empty run of telephone characters over the whole netloc, or such a run followed by one final newline; its meaning is fixed by `MatchTel` and `TelPatternWithoutNewline`. |
| UrlValidators.MatchTel | cms/forms/validators.py:30 | A greedy left-to-right scan, as the regex engine runs `^[...]+$`, succeeds exactly when the anchored pattern matches, including Python's `$` before one final newline. |
| UrlValidators.IsTelUrl | cms/forms/validators.py:36-37 | The fallback test: `urlparse` succeeded, the scheme is exactly `tel` and the netloc matches `tel_re`; its use is stated by `ExtraUrlCheck`'s contract. |
| UrlValidators.ExtraUrlCheck | cms/forms/validators.py:32-40 | A value is accepted iff the inherited validator accepts it or `urlparse` splits it into scheme `tel` and a netloc matching `tel_re`; `urlparse`'s `ValueError` escapes iff the inherited validator rejected the value and `urlparse` cannot split it; any other rejection is the inherited validator's own error. |
| UrlValidators.ExtraAcceptsSuperset | cms/forms/validators.py:32-34 | Every value the inherited `URLValidator` accepts is accepted by the extended one. |
| UrlValidators.RejectedUnlessTel | cms/forms/validators.py:35-40 | After the inherited validator rejects a value, acceptance requires that `urlparse` succeeds with scheme `tel` and a non-empty netloc, and a validation error carries the original message. |
| UrlValidators.TelExample | cms/forms/validators.py:36-38 | `tel://+1(555)123-45#6`, which `urlparse` splits into scheme `tel` and netloc `+1(555)123-45`, is accepted even when the inherited validator rejects it. |
| UrlValidators.ValidateUrl | cms/forms/validators.py:47-53 | `validate_url` succeeds iff the relative pattern matches or the extended absolute validator accepts; it lets `urlparse`'s `ValueError` out iff the relative pattern fails, the inherited validator rejects and `urlparse` cannot split the value; a validation error is the inherited validator's error. |
| UrlValidators.RelativeShortCircuits | cms/forms/validators.py:47-53 | When the relative pattern matches, the result is success whatever the absolute validator and `urlparse` would say. |
| UrlValidators.ParseErrorEscapes | cms/forms/validators.py:36-53 | `tel://[12`, which `urlparse` cannot split, comes out of `validate_url` as the `ValueError`, not as a validation error. |
| UrlUniqueness.TrimLeft | cms/forms/validators.py:62 | The left half of `strip('/')`: the result is a suffix of the input, everything cut off is `/`, and it does not start with `/`. |
| UrlUniqueness.TrimRight | cms/forms/validators.py:62 | The right half of `strip('/')`: the result is a prefix of the input, everything cut off is `/`, and it does not end with `/`. |
| UrlUniqueness.Strip | cms/forms/validators.py:62 | The stripped path neither starts nor ends with `/` and is no longer than the input. |
| UrlUniqueness.StripIsInfix | cms/forms/validators.py:62 | The stripped path is a contiguous piece of the input with only `/` characters before and after it. |
| UrlUniqueness.StripsToIsUnique | cms/forms/validators.py:62 | Any unslashed infix of the input that has only `/` around it is the stripped path, so stripping is fully determined by that description. |
| UrlUniqueness.StripIdempotent | cms/forms/validators.py:62 | Stripping the stripped path again leaves it unchanged. |
| UrlUniqueness.ExcludePk | cms/forms/validators.py:66-70 | `exclude(pk=...)` keeps exactly the records with a different primary key and never lengthens the sequence. |
| UrlUniqueness.IsSetId | cms/forms/validators.py:69 | Python truthiness of `publisher_public_id`: `None` and `0` are false; its effect is stated by `Remaining` and `EditedPageNeverConflicts`. |
| UrlUniqueness.Remaining | cms/forms/validators.py:66-70 | After the edited page's pk and then, when set, its `publisher_public_id` are excluded, a record remains iff it was returned by the lookup and survives the exclusion; nothing is added. |
| UrlUniqueness.RemainingCons | cms/forms/validators.py:66-70 | The exclusions act record by record and keep the query order: a surviving head record stays at the head. |
| UrlUniqueness.FirstSurvivor | cms/forms/validators.py:72-75 | Reference definition of "first": every earlier record is excluded and the record at the index, if any, survives. |
| UrlUniqueness.RemainingHead | cms/forms/validators.py:72-75 | Records remain iff some looked-up record survives the exclusion, and `pages[0]` is the first such record of the lookup. |
| UrlUniqueness.EditableId | cms/forms/validators.py:77-83 | The editable id: the record's own pk for a draft, its `publisher_public_id` otherwise; stated in `ValidateUrlUniqueness`'s contract. |
| UrlUniqueness.ChangeRoute | cms/forms/validators.py:85-88 | The page-type change route iff the record is a page type, the page change route otherwise; stated in `ValidateUrlUniqueness`'s contract. |
| UrlUniqueness.ValidateUrlUniqueness | cms/forms/validators.py:56-100 | `InvalidUrl` iff the path contains `/` and `validate_url` raises a validation error, with that error's message; `UnparsableUrl` iff the path contains `/` and `validate_url` lets `urlparse`'s `ValueError` out; `Available` iff the path passed that gate and no looked-up record survives the exclusion; a conflict is a surviving record at the stripped path, reported with its own pk if it is a draft and its `publisher_public_id` otherwise, the page-type change route iff it is a page type, and the "as current page instance" message iff a page is being edited. |
| UrlUniqueness.ConflictIsFirstSurvivor | cms/forms/validators.py:72-78 | The reported conflict is the first record of the lookup that survives the exclusion. |
| UrlUniqueness.EditedPageNeverConflicts | cms/forms/validators.py:66-75 | The edited page's pk, and its `publisher_public_id` when set, are never the reported conflict's pk. |
| UrlUniqueness.NoSlashSkipsValidation | cms/forms/validators.py:59-60 | A path without `/` is never URL-validated: the URL validators cannot change the result. |
| UrlUniqueness.InvalidBeforeLookup | cms/forms/validators.py:59-63 | A path with `/` that `validate_url` does not accept is refused, with a validation error or the escaping `ValueError`, before the lookup: the page records cannot change the result. |
| UrlUniqueness.AboutExample | cms/forms/validators.py:59-99 | Creating `about/` when the public version of page 4's draft already sits at `about` reports a conflict on that record, with editable id 4, the page change route, url `about` and the creating-page message. |

## Left out

- Django's `URLValidator` internals and its default scheme list: library code, taken as the opaque `base` and `baseSchemes` oracles.
- The content of `relative_url_regex` (`cms/utils/urlutils.py` is not part of this model): taken as the opaque `relative` oracle.
- `urlparse` splitting rules: the oracle `parse` supplies scheme and netloc; no assumption is made about when netloc is non-empty.
- `get_all_pages_from_path`, `select_related` and the ordering of the query: database access, taken as the `lookup` function whose sequence order is the query order.
- `admin_reverse`, `force_text`, `ugettext`, the `%`-formatting of the HTML anchor and message, and `mark_safe`: string templating and translation, replaced by the structured `Conflict` value that carries the route, the id, the stripped url, the conflicting record (whose title fills the link) and the message variant.
- An unsaved edited page whose `pk` is `None`: the model gives every page record an integer primary key.
- What `admin_reverse` does with a `None` id, which arises when a public conflicting record has no `publisher_public_id`: the model reports `editId == None`.
