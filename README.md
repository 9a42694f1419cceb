# PyApple record layer, modelled in Dafny

PyApple is a client for a firmware-information web service. Its file
`pyapple/interface/ios.py` turns the loosely typed fields of API responses
into records: regular firmware images (`IPSW`), key bags (`KeysObject`),
firmware key sets (`IPSWKeys`), over-the-air images (`OTAIPSW`), devices
(`iDevice`), Intel macOS installers (`IntelMacOS`) and their packages
(`IntelMacOSPkg`), plus the empty `CydiaPackage`. Along the way it
normalises two kinds of field:

- timestamps, through `to_dt`: `None` stays `None`; a string is parsed with
  `strptime` against `%Y-%m-%dT%H:%M:%SZ` and tagged with UTC;
- byte counts, which become a pair of the exact integer and a human-readable
  string.

The package filename is the last `/`-separated piece of its URL.

The project has two files:

- `wrappers.dfy` (module `Wrappers`): `Option` for Python's `Optional`, and
  `Result` for a call that raises. `Result` works with `:-`, so an error
  propagates the way a Python exception does.
- `ios.dfy` (module `Ios`): the model itself. The records that are set once
  in `__init__` are datatypes, each built by a function (`NewIpsw`, …). A
  constructor that calls `to_dt` returns `Result<Record, ParseError>`, and
  the error comes from the first date that fails, in the order the source
  assigns them. `IntelMacOS` has fields that callers fill in after
  construction, so it is a class whose constructor leaves them blank.
  `CydiaPackage` is a datatype with one constructor and no fields.
  Fields whose Python names contain an underscore are renamed to camelCase:
  `release_type`, `upload_date`, `release_date` and `product_id` are
  `releaseType`, `uploadDate`, `releaseDate` and `productId`.

How the parts are modelled:

- Timestamps. `ParseUtc` is a strict model of `strptime` followed by
  `.replace(tzinfo=tz.tzutc())`. It accepts a string in
  the layout `YYYY-MM-DDTHH:MM:SSZ`: every numeric field at full width,
  and `T`/`Z` in either case, because strptime matches its format
  case-insensitively. The fields must also name a real `datetime`: years 1 to
  9999, months 1 to 12, Gregorian month lengths with leap years, hours 0–23,
  minutes and seconds 0–59. strptime's own pattern lets second 60 and 61
  through, but the `datetime` constructor then rejects them. Every other
  string raises `ParseError`.
- `Format`, the canonical zero-padded spelling of the pattern (four-digit
  year, two-digit fields, upper-case `T` and `Z`), appears only in
  specifications. It lets the model state the round trips in both
  directions.
- `Split` models Python's `str.split` with a one-character separator, and
  `Join` is its inverse.
- Size pairs. The human-readable string from `hurry.filesize.size(n,
  system=alternative)` comes from a function the model does not include. Each
  size-bearing constructor takes it as the parameter `humanize: int -> string`,
  and nothing is proved about its units or rounding.

Two behaviours of the code are worth stating:

- An empty URL gives the package the empty filename. It is not an error,
  because `"".split("/")` is `[""]`.
- A negative byte count is accepted and stored as given. Nothing in the file
  checks it.

## Model

| member | source | states |
|---|---|---|
| `Ios.ToDt` | pyapple/interface/ios.py:16-23 | `None` gives `Ok(None)`: no error and no default. A present string succeeds exactly when it matches the layout and names a real instant. Then the result is present and tagged UTC, and its canonical spelling is the input with `T`/`Z` upper-cased. Otherwise the error names the input. |
| `Ios.ParseUtc` | pyapple/interface/ios.py:20-23 | Success exactly for well-formed strings that name a valid instant. Year, month, day, hour, minute and second are the values of the digit fields at offsets 0–4, 5–7, 8–10, 11–13, 14–16 and 17–19. The zone is UTC. Any other string is a `ParseError` carrying that string, never a missing value. |
| `Ios.FormatThenParse` | pyapple/interface/ios.py:21-22 | Every instant a `datetime` can hold is parsed back from its own canonical spelling. |
| `Ios.ParseThenFormat` | pyapple/interface/ios.py:21-22 | An accepted string's instant is spelled back as the input with its two literal letters upper-cased. It is spelled back as the input itself when they already were. |
| `Ios.ToDtRoundTrip` | pyapple/interface/ios.py:16-23 | `to_dt` of a canonical timestamp string gives back the instant it spells. |
| `Ios.Split` | pyapple/interface/ios.py:196 | `str.split` with a one-character separator returns at least one piece, and no piece contains the separator. |
| `Ios.JoinSplit` | pyapple/interface/ios.py:196 | Joining the pieces of a split with the separator gives back the original string. |
| `Ios.SplitWithoutSep` | pyapple/interface/ios.py:196 | A string without the separator splits into the one-piece list holding the string itself. |
| `Ios.LastSegmentStep` | pyapple/interface/ios.py:196 | The last segment of a non-empty string is the whole string when it has no separator, and otherwise the last segment of the string without its first character. |
| `Ios.LastSegmentIsFinal` | pyapple/interface/ios.py:196 | `s.split(sep)[-1]` has no separator, ends `s`, and starts at the start of `s` or right after a separator. |
| `Ios.LastSegmentUnique` | pyapple/interface/ios.py:196 | Exactly one tail of `s` has those three properties, so they fully describe `s.split(sep)[-1]`. |
| `Ios.LastSegmentFacts` | pyapple/interface/ios.py:196 | The last segment has no separator and is a suffix of the string. With no separator present it is the whole string, and an empty string gives the empty segment. |
| `Ios.NewIpsw` | pyapple/interface/ios.py:43-69 | It succeeds exactly when both dates normalise. `url` is stored as `uri`. The size pair's first part is the given integer and its second part is `humanize` of it. Both dates are exactly `to_dt` of their arguments. Every other argument is copied. When both dates fail, the release date's error is the one raised. With both dates `None` the record is built with both fields `None`. |
| `Ios.IpswDatesRoundTrip` | pyapple/interface/ios.py:60-69 | An IPSW built from canonical date strings holds exactly those instants, and its other fields are exactly the arguments. |
| `Ios.NewKeysObject` | pyapple/interface/ios.py:73-87 | Every argument is copied. `date` is `to_dt(date)`, and its error is the only one possible. A `None` date always succeeds, giving a `None` field. |
| `Ios.NewIpswKeys` | pyapple/interface/ios.py:91-107 | Every argument is copied unchanged, including the optional baseband and the opaque optional key list. |
| `Ios.NewOtaIpsw` | pyapple/interface/ios.py:111-139 | It succeeds exactly when both dates normalise. `uploadDate` is `to_dt(uploaddate)` and `releaseDate` is `to_dt(releasedate)`, with no swap. The upload date's error is raised first. `url` is stored as `uri`, the size pair's first part is the integer given, and the other fields are copied. |
| `Ios.OtaDatesNotSwapped` | pyapple/interface/ios.py:121-138 | Given two canonical date strings in the argument order upload, release, the upload instant lands in `uploadDate` and the release instant in `releaseDate`. |
| `Ios.NewIDevice` | pyapple/interface/ios.py:156-174 | Every argument is copied unchanged, including the two opaque optional lists. |
| `Ios.NewIntelMacOSPkg` | pyapple/interface/ios.py:195-198 | `filename` is the final `/`-segment of `url`: free of `/`, a suffix of `url`, and either all of it or preceded by `/`. Without a `/` it equals `url`. `uri` is `url`, and the size pair's first part is the integer given. |
| `Ios.IntelMacOS.constructor` | pyapple/interface/ios.py:185-191 | The `productId` argument is stored as given. `title`, `version`, `build` and `postdate` are `""`, and `packages` is empty. |

## Left out

- `Ios.ToDt`: the model is stricter than CPython's `strptime`. It rejects
  strings that Python accepts: single-digit numeric fields (`2020-1-5T…`), a
  day written as a space and a digit, and non-ASCII decimal digits. On every
  string the model accepts, Python gives the same instant.
- `Ios.ParseUtc`: every rejection is one `ParseError` carrying the input.
  Python raises `ValueError` for all of them but with different messages, for
  a format mismatch and for an out-of-range field. The model does not
  distinguish the two.
- `hurry.filesize.size(…, system=alternative)` is a foreign library and is
  not part of this model. The rendering is a parameter, and nothing about its
  units or rounding is modelled.
- `BaseModel.__repr__` and `__str__` print the attribute dictionary and are
  presentation only.
- Python's dynamic typing: arguments take the types their annotations give.
  `product_id` has no annotation and is modelled as a string. The untyped
  lists (`keys`, `firmwares`, `boards`) are sequences of an uninterpreted type
  parameter. `packages` is modelled as a sequence of package records.
- `Ios.NewIpswKeys`, `Ios.NewIDevice`: the source stores the caller's own
  list objects (`keys`, `firmwares`, `boards`), so a later change to such a
  list by the caller shows through the record. The model stores immutable
  sequences and does not capture this aliasing.
- The network fetching and JSON decoding that supply these values are not in
  this file and are not modelled.
