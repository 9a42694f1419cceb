/** The record layer of PyApple's firmware-information client
    (pyapple/interface/ios.py): the timestamp normaliser `to_dt`, the
    `(bytes, readable)` size pair, the final-path-segment filename of a
    macOS package, and the records built from API fields. */
module Ios {
  import opened Wrappers

  // ---------------------------------------------------------------------
  // Instants: what `to_dt` returns
  // ---------------------------------------------------------------------

  /** The only time zone `to_dt` attaches: `dateutil.tz.tzutc()`. */
  datatype TimeZone = Utc

  /** An aware `datetime`: the calendar fields and the attached zone.
      The pattern has no fractional seconds, so the microsecond field is
      always zero and is not represented. */
  datatype Instant = Instant(year: int, month: int, day: int,
                             hour: int, minute: int, second: int,
                             zone: TimeZone)

  /** The `ValueError` that `datetime.strptime` raises, naming the string
      it rejected. */
  datatype ParseError = ParseError(input: string)

  predicate IsLeapYear(y: int) {
    y % 4 == 0 && (y % 100 != 0 || y % 400 == 0)
  }

  /** Length of month `m` of year `y` in the proleptic Gregorian calendar. */
  function DaysInMonth(y: int, m: int): (n: int)
    requires 1 <= m <= 12
    ensures 28 <= n <= 31
    ensures n == 29 <==> m == 2 && IsLeapYear(y)
  {
    if m == 2 then (if IsLeapYear(y) then 29 else 28)
    else if m == 4 || m == 6 || m == 9 || m == 11 then 30
    else 31
  }

  /** The instants a `datetime` can hold: years 1 to 9999, real month
      lengths, a 24-hour clock and no leap second. */
  predicate ValidInstant(i: Instant) {
    && 1 <= i.year <= 9999
    && 1 <= i.month <= 12
    && 1 <= i.day <= DaysInMonth(i.year, i.month)
    && 0 <= i.hour <= 23
    && 0 <= i.minute <= 59
    && 0 <= i.second <= 59
  }

  // ---------------------------------------------------------------------
  // Decimal fields
  // ---------------------------------------------------------------------

  predicate IsDigit(c: char) {
    '0' <= c <= '9'
  }

  function DigitValue(c: char): (d: nat)
    requires IsDigit(c)
    ensures d < 10
  {
    c as int - '0' as int
  }

  function DigitChar(d: nat): (c: char)
    requires d < 10
    ensures IsDigit(c) && DigitValue(c) == d
  {
    ('0' as int + d) as char
  }

  predicate AllDigits(s: string) {
    forall k :: 0 <= k < |s| ==> IsDigit(s[k])
  }

  function Pow10(w: nat): (p: nat)
    ensures p >= 1
  {
    if w == 0 then 1 else 10 * Pow10(w - 1)
  }

  /** The number a run of ASCII digits spells, most significant first. */
  function DigitsValue(s: string): (v: nat)
    requires AllDigits(s)
    ensures v < Pow10(|s|)
  {
    if |s| == 0 then 0
    else DigitsValue(s[..|s| - 1]) * 10 + DigitValue(s[|s| - 1])
  }

  /** The `w` least significant decimal digits of `n`, zero-padded. */
  function Padded(n: nat, w: nat): (s: string)
    ensures |s| == w && AllDigits(s)
  {
    if w == 0 then "" else Padded(n / 10, w - 1) + [DigitChar(n % 10)]
  }

  /** Writing a number that fits in `w` digits and reading it back gives
      the number. */
  lemma {:induction false} PaddedValue(n: nat, w: nat)
    requires n < Pow10(w)
    ensures DigitsValue(Padded(n, w)) == n
  {
    if w > 0 {
      var s := Padded(n, w);
      assert s[..w - 1] == Padded(n / 10, w - 1);
      PaddedValue(n / 10, w - 1);
    }
  }

  /** Reading a run of digits and writing it back at the same width gives
      the run, leading zeros included. */
  lemma {:induction false} DigitsPadded(s: string)
    requires AllDigits(s)
    ensures Padded(DigitsValue(s), |s|) == s
  {
    if |s| > 0 {
      var init := s[..|s| - 1];
      var v := DigitsValue(s);
      assert v / 10 == DigitsValue(init) && v % 10 == DigitValue(s[|s| - 1]);
      DigitsPadded(init);
      assert s == init + [s[|s| - 1]];
    }
  }

  // ---------------------------------------------------------------------
  // to_dt: strptime(time, "%Y-%m-%dT%H:%M:%SZ").replace(tzinfo=tzutc())
  // ---------------------------------------------------------------------

  /** `s` has the shape `YYYY-MM-DDTHH:MM:SSZ` with every numeric field at
      full width. The literals `T` and `Z` match in either case, because
      strptime matches its format case-insensitively. */
  predicate MatchesLayout(s: string) {
    && |s| == 20
    && AllDigits(s[0..4]) && s[4] == '-'
    && AllDigits(s[5..7]) && s[7] == '-'
    && AllDigits(s[8..10]) && (s[10] == 'T' || s[10] == 't')
    && AllDigits(s[11..13]) && s[13] == ':'
    && AllDigits(s[14..16]) && s[16] == ':'
    && AllDigits(s[17..19]) && (s[19] == 'Z' || s[19] == 'z')
  }

  /** The fields the pattern matched, tagged with UTC. */
  function FieldsOf(s: string): Instant
    requires MatchesLayout(s)
  {
    Instant(DigitsValue(s[0..4]), DigitsValue(s[5..7]), DigitsValue(s[8..10]),
            DigitsValue(s[11..13]), DigitsValue(s[14..16]), DigitsValue(s[17..19]),
            Utc)
  }

  /** Parse a present timestamp string and tag it UTC. A string of the
      wrong shape, or whose fields name no real instant (month 13,
      30 February, second 60, year 0), raises. */
  function ParseUtc(s: string): (r: Result<Instant, ParseError>)
    ensures r.Ok? <==> MatchesLayout(s) && ValidInstant(FieldsOf(s))
    ensures r.Ok? ==> r.value.zone == Utc && ValidInstant(r.value)
    ensures r.Ok? ==> && r.value.year == DigitsValue(s[0..4])
                      && r.value.month == DigitsValue(s[5..7])
                      && r.value.day == DigitsValue(s[8..10])
                      && r.value.hour == DigitsValue(s[11..13])
                      && r.value.minute == DigitsValue(s[14..16])
                      && r.value.second == DigitsValue(s[17..19])
    ensures r.Err? ==> r.error == ParseError(s)
  {
    if MatchesLayout(s) && ValidInstant(FieldsOf(s)) then Ok(FieldsOf(s))
    else Err(ParseError(s))
  }

  /** The canonical zero-padded spelling of an instant in the same
      pattern (four-digit year, two-digit fields, upper-case `T` and `Z`).
      Used only to state round trips. */
  function Format(i: Instant): (s: string)
    requires ValidInstant(i)
    ensures |s| == 20
  {
    Padded(i.year, 4) + "-" + Padded(i.month, 2) + "-" + Padded(i.day, 2) + "T"
    + Padded(i.hour, 2) + ":" + Padded(i.minute, 2) + ":" + Padded(i.second, 2) + "Z"
  }

  /** `s` with its two literal letters written upper-case. */
  function Canonical(s: string): (c: string)
    requires |s| == 20
    ensures |c| == 20
  {
    s[..10] + "T" + s[11..19] + "Z"
  }

  /** Every instant a `datetime` can hold is read back from its own
      canonical spelling. */
  lemma FormatThenParse(i: Instant)
    requires ValidInstant(i)
    ensures ParseUtc(Format(i)) == Ok(i)
  {
    var s := Format(i);
    assert s[0..4] == Padded(i.year, 4);
    assert s[5..7] == Padded(i.month, 2);
    assert s[8..10] == Padded(i.day, 2);
    assert s[11..13] == Padded(i.hour, 2);
    assert s[14..16] == Padded(i.minute, 2);
    assert s[17..19] == Padded(i.second, 2);
    assert Pow10(2) == 100 && Pow10(4) == 10000;
    PaddedValue(i.year, 4);
    PaddedValue(i.month, 2);
    PaddedValue(i.day, 2);
    PaddedValue(i.hour, 2);
    PaddedValue(i.minute, 2);
    PaddedValue(i.second, 2);
    assert MatchesLayout(s);
    assert FieldsOf(s) == i;
  }

  /** An accepted string spells exactly the instant it was parsed to: its
      canonical spelling is the input with `T` and `Z` upper-cased, and the
      input itself when they already were. */
  lemma ParseThenFormat(s: string)
    requires ParseUtc(s).Ok?
    ensures Format(ParseUtc(s).value) == Canonical(s)
    ensures s[10] == 'T' && s[19] == 'Z' ==> Format(ParseUtc(s).value) == s
  {
    DigitsPadded(s[0..4]);
    DigitsPadded(s[5..7]);
    DigitsPadded(s[8..10]);
    DigitsPadded(s[11..13]);
    DigitsPadded(s[14..16]);
    DigitsPadded(s[17..19]);
    var f := Format(ParseUtc(s).value);
    assert f == s[0..4] + "-" + s[5..7] + "-" + s[8..10] + "T"
              + s[11..13] + ":" + s[14..16] + ":" + s[17..19] + "Z";
    assert forall k :: 0 <= k < 20 ==> f[k] == Canonical(s)[k];
    if s[10] == 'T' && s[19] == 'Z' {
      assert forall k :: 0 <= k < 20 ==> f[k] == s[k];
    }
  }

  /** `to_dt`: a missing timestamp stays missing, without error and without
      a default; a present one becomes a UTC instant or raises. */
  function ToDt(time: Option<string>): (r: Result<Option<Instant>, ParseError>)
    ensures time.None? ==> r == Ok(None)
    ensures time.Some? ==> (r.Ok? <==> MatchesLayout(time.value) && ValidInstant(FieldsOf(time.value)))
    ensures time.Some? && r.Ok? ==> r.value.Some?
    ensures r.Ok? && r.value.Some? ==> && r.value.value.zone == Utc
                                       && ValidInstant(r.value.value)
                                       && Format(r.value.value) == Canonical(time.value)
    ensures r.Err? ==> time.Some? && r.error == ParseError(time.value)
  {
    match time
    case None => Ok(None)
    case Some(s) =>
      var i :- ParseUtc(s);
      ParseThenFormat(s);
      Ok(Some(i))
  }

  /** `to_dt` reads back every canonical timestamp. */
  lemma ToDtRoundTrip(i: Instant)
    requires ValidInstant(i)
    ensures ToDt(Some(Format(i))) == Ok(Some(i))
  {
    FormatThenParse(i);
  }

  // ---------------------------------------------------------------------
  // str.split and the last path segment
  // ---------------------------------------------------------------------

  /** Python's `s.split(sep)` for a one-character separator: the pieces
      between separators, in order; never empty (`"".split("/") == [""]`). */
  function Split(s: string, sep: char): (parts: seq<string>)
    ensures |parts| >= 1
    ensures forall k :: 0 <= k < |parts| ==> sep !in parts[k]
    decreases |s|
  {
    if |s| == 0 then [""]
    else
      var rest := Split(s[1..], sep);
      if s[0] == sep then [""] + rest
      else [[s[0]] + rest[0]] + rest[1..]
  }

  /** `sep.join(parts)`. */
  function Join(parts: seq<string>, sep: char): string
    requires |parts| >= 1
  {
    if |parts| == 1 then parts[0] else parts[0] + [sep] + Join(parts[1..], sep)
  }

  /** Splitting loses nothing: joining the pieces gives the string back. */
  lemma {:induction false} JoinSplit(s: string, sep: char)
    ensures Join(Split(s, sep), sep) == s
    decreases |s|
  {
    if |s| > 0 {
      var rest := Split(s[1..], sep);
      JoinSplit(s[1..], sep);
      if s[0] == sep {
        assert ([""] + rest)[1..] == rest;
      } else {
        var parts := [[s[0]] + rest[0]] + rest[1..];
        if |rest| == 1 {
          assert parts == [[s[0]] + rest[0]];
        } else {
          assert parts[1..] == rest[1..];
          assert Join(rest, sep) == rest[0] + [sep] + Join(rest[1..], sep);
        }
        assert s == [s[0]] + s[1..];
      }
    }
  }

  /** A string without the separator is one piece. */
  lemma {:induction false} SplitWithoutSep(s: string, sep: char)
    requires sep !in s
    ensures Split(s, sep) == [s]
    decreases |s|
  {
    if |s| > 0 {
      SplitWithoutSep(s[1..], sep);
      assert s == [s[0]] + s[1..];
    }
  }

  /** `s.split(sep)[-1]`. */
  function LastSegment(s: string, sep: char): string {
    var parts := Split(s, sep);
    parts[|parts| - 1]
  }

  /** `f` is the separator-free tail of `s` that starts at the beginning of
      `s` or right after a separator. */
  predicate IsFinalSegment(s: string, sep: char, f: string) {
    && sep !in f
    && |f| <= |s|
    && s[|s| - |f|..] == f
    && (|f| == |s| || s[|s| - |f| - 1] == sep)
  }

  /** Peeling the first character off: the last segment of `s` is `s`
      itself when `s` has no separator, and otherwise that of its tail. */
  lemma LastSegmentStep(s: string, sep: char)
    requires |s| > 0
    ensures LastSegment(s, sep) == if sep !in s then s else LastSegment(s[1..], sep)
  {
    var t := s[1..];
    var rest := Split(t, sep);
    if sep !in s {
      SplitWithoutSep(s, sep);
    } else if s[0] != sep {
      if |rest| == 1 {
        // the one piece would be all of `t`, which holds the separator
        JoinSplit(t, sep);
      }
    }
  }

  lemma {:induction false} LastSegmentIsFinal(s: string, sep: char)
    ensures IsFinalSegment(s, sep, LastSegment(s, sep))
    decreases |s|
  {
    if |s| > 0 {
      LastSegmentStep(s, sep);
      if sep in s {
        var t := s[1..];
        var g := LastSegment(t, sep);
        LastSegmentIsFinal(t, sep);
        FinalSegmentOfTail(s, sep, g);
      } else {
        SplitWithoutSep(s, sep);
      }
    }
  }

  /** A final segment of the tail of `s` is one of `s` too, when `s` has a
      separator. */
  lemma FinalSegmentOfTail(s: string, sep: char, g: string)
    requires |s| > 0 && sep in s
    requires IsFinalSegment(s[1..], sep, g)
    ensures IsFinalSegment(s, sep, g)
  {
  }

  /** A string has exactly one final segment, so `IsFinalSegment` is a
      complete description of `s.split(sep)[-1]`. */
  lemma LastSegmentUnique(s: string, sep: char, f: string)
    requires IsFinalSegment(s, sep, f)
    ensures f == LastSegment(s, sep)
  {
    // Of two different final segments, the longer would contain the
    // separator that precedes the shorter.
    LastSegmentIsFinal(s, sep);
  }

  /** The facts about `url.split("/")[-1]` the package filename rests on. */
  lemma LastSegmentFacts(s: string, sep: char)
    ensures sep !in LastSegment(s, sep)
    ensures |LastSegment(s, sep)| <= |s| && s[|s| - |LastSegment(s, sep)|..] == LastSegment(s, sep)
    ensures sep !in s ==> LastSegment(s, sep) == s
    ensures s == "" ==> LastSegment(s, sep) == ""
    ensures IsFinalSegment(s, sep, LastSegment(s, sep))
  {
    LastSegmentIsFinal(s, sep);
    if sep !in s {
      LastSegmentUnique(s, sep, s);
    }
  }

  // ---------------------------------------------------------------------
  // Byte counts
  // ---------------------------------------------------------------------

  /** `(n, size(n, system=alternative))`: the exact byte count and its
      human-readable form. `hurry.filesize.size` is not part of this model:
      it is the caller-supplied `humanize`. */
  datatype FileSize = FileSize(bytes: int, readable: string)

  // ---------------------------------------------------------------------
  // Records
  // ---------------------------------------------------------------------

  /** A regular IPSW firmware file. */
  datatype Ipsw = Ipsw(identifier: string, buildid: string, version: string,
                       uri: string, filesize: FileSize,
                       sha1sum: string, md5sum: string, signed: bool,
                       releasedate: Option<Instant>, uploaddate: Option<Instant>)

  /** `IPSW(...)`: `url` is stored as `uri`, the size becomes a pair, both
      dates go through `to_dt` (release date first), everything else is
      copied. */
  function NewIpsw(identifier: string, buildid: string, version: string, url: string,
                   filesize: int, sha1sum: string, md5sum: string,
                   releasedate: Option<string>, uploaddate: Option<string>,
                   signed: bool, humanize: int -> string): (r: Result<Ipsw, ParseError>)
    ensures r.Ok? <==> ToDt(releasedate).Ok? && ToDt(uploaddate).Ok?
    ensures r.Err? ==> r.error == (if ToDt(releasedate).Err? then ToDt(releasedate).error
                                   else ToDt(uploaddate).error)
    ensures r.Ok? ==> && r.value.identifier == identifier
                      && r.value.buildid == buildid
                      && r.value.version == version
                      && r.value.uri == url
                      && r.value.filesize == FileSize(filesize, humanize(filesize))
                      && r.value.sha1sum == sha1sum
                      && r.value.md5sum == md5sum
                      && r.value.signed == signed
                      && r.value.releasedate == ToDt(releasedate).value
                      && r.value.uploaddate == ToDt(uploaddate).value
    ensures releasedate.None? && uploaddate.None? ==>
              r.Ok? && r.value.releasedate.None? && r.value.uploaddate.None?
  {
    var release :- ToDt(releasedate);
    var upload :- ToDt(uploaddate);
    Ok(Ipsw(identifier, buildid, version, url, FileSize(filesize, humanize(filesize)),
            sha1sum, md5sum, signed, release, upload))
  }

  /** An IPSW built from canonical date strings holds exactly those instants. */
  lemma IpswDatesRoundTrip(identifier: string, buildid: string, version: string, url: string,
                           filesize: int, sha1sum: string, md5sum: string,
                           release: Instant, upload: Instant,
                           signed: bool, humanize: int -> string)
    requires ValidInstant(release) && ValidInstant(upload)
    ensures NewIpsw(identifier, buildid, version, url, filesize, sha1sum, md5sum,
                    Some(Format(release)), Some(Format(upload)), signed, humanize)
            == Ok(Ipsw(identifier, buildid, version, url, FileSize(filesize, humanize(filesize)),
                       sha1sum, md5sum, signed, Some(release), Some(upload)))
  {
    ToDtRoundTrip(release);
    ToDtRoundTrip(upload);
  }

  /** One key bag of an IPSW's key set. */
  datatype KeysObject = KeysObject(image: string, filename: string, kbag: string,
                                   key: string, iv: string, date: Option<Instant>)

  /** `KeysObject(...)`: every argument copied, `date` through `to_dt`. */
  function NewKeysObject(image: string, filename: string, kbag: string,
                         key: string, iv: string, date: Option<string>)
    : (r: Result<KeysObject, ParseError>)
    ensures r.Ok? <==> ToDt(date).Ok?
    ensures r.Err? ==> r.error == ToDt(date).error
    ensures r.Ok? ==> && r.value.image == image
                      && r.value.filename == filename
                      && r.value.kbag == kbag
                      && r.value.key == key
                      && r.value.iv == iv
                      && r.value.date == ToDt(date).value
    ensures date.None? ==> r.Ok? && r.value.date.None?
  {
    var d :- ToDt(date);
    Ok(KeysObject(image, filename, kbag, key, iv, d))
  }

  /** The key set of one firmware; `keys` is an opaque optional list. */
  datatype IpswKeys<K> = IpswKeys(identifier: string, buildid: string, codename: string,
                                  baseband: Option<string>,
                                  updateramdiskexists: bool, restoreramdiskexists: bool,
                                  keys: Option<seq<K>>)

  /** `IPSWKeys(...)`: every argument copied unchanged; it cannot fail. */
  function NewIpswKeys<K>(identifier: string, buildid: string, codename: string,
                          baseband: Option<string>,
                          updateramdiskexists: bool, restoreramdiskexists: bool,
                          keys: Option<seq<K>>): (r: IpswKeys<K>)
    ensures && r.identifier == identifier
            && r.buildid == buildid
            && r.codename == codename
            && r.baseband == baseband
            && r.updateramdiskexists == updateramdiskexists
            && r.restoreramdiskexists == restoreramdiskexists
            && r.keys == keys
  {
    IpswKeys(identifier, buildid, codename, baseband,
             updateramdiskexists, restoreramdiskexists, keys)
  }

  /** An over-the-air firmware image. */
  datatype OtaIpsw = OtaIpsw(identifier: string, buildid: string, version: string,
                             uri: string, filesize: FileSize,
                             prerequisitebuildid: string, prerequisiteversion: string,
                             releaseType: string,
                             uploadDate: Option<Instant>, releaseDate: Option<Instant>,
                             signed: bool)

  /** `OTAIPSW(...)`: the argument list takes `uploaddate` before
      `releasedate`; each is stored under its own name (no swap), and the
      upload date is parsed first. */
  function NewOtaIpsw(identifier: string, buildid: string, version: string, url: string,
                      filesize: int, prerequisitebuildid: string, prerequisiteversion: string,
                      releaseType: string, uploaddate: Option<string>, releasedate: Option<string>,
                      signed: bool, humanize: int -> string): (r: Result<OtaIpsw, ParseError>)
    ensures r.Ok? <==> ToDt(uploaddate).Ok? && ToDt(releasedate).Ok?
    ensures r.Err? ==> r.error == (if ToDt(uploaddate).Err? then ToDt(uploaddate).error
                                   else ToDt(releasedate).error)
    ensures r.Ok? ==> && r.value.identifier == identifier
                      && r.value.buildid == buildid
                      && r.value.version == version
                      && r.value.uri == url
                      && r.value.filesize == FileSize(filesize, humanize(filesize))
                      && r.value.prerequisitebuildid == prerequisitebuildid
                      && r.value.prerequisiteversion == prerequisiteversion
                      && r.value.releaseType == releaseType
                      && r.value.uploadDate == ToDt(uploaddate).value
                      && r.value.releaseDate == ToDt(releasedate).value
                      && r.value.signed == signed
  {
    var upload :- ToDt(uploaddate);
    var release :- ToDt(releasedate);
    Ok(OtaIpsw(identifier, buildid, version, url, FileSize(filesize, humanize(filesize)),
               prerequisitebuildid, prerequisiteversion, releaseType,
               upload, release, signed))
  }

  /** Two different canonical dates land in the fields of their own names. */
  lemma OtaDatesNotSwapped(identifier: string, buildid: string, version: string, url: string,
                           filesize: int, prerequisitebuildid: string, prerequisiteversion: string,
                           releaseType: string, upload: Instant, release: Instant,
                           signed: bool, humanize: int -> string)
    requires ValidInstant(upload) && ValidInstant(release)
    ensures var r := NewOtaIpsw(identifier, buildid, version, url, filesize,
                                prerequisitebuildid, prerequisiteversion, releaseType,
                                Some(Format(upload)), Some(Format(release)), signed, humanize);
            r.Ok? && r.value.uploadDate == Some(upload) && r.value.releaseDate == Some(release)
  {
    ToDtRoundTrip(upload);
    ToDtRoundTrip(release);
  }

  /** A device; `firmwares` and `boards` are opaque optional lists. */
  datatype IDevice<F, B> = IDevice(name: string, identifier: string, boardconfig: string,
                                   platform: string, cpid: string, bdid: string,
                                   firmwares: Option<seq<F>>, boards: Option<seq<B>>)

  /** `iDevice(...)`: every argument copied unchanged; it cannot fail. */
  function NewIDevice<F, B>(name: string, identifier: string, boardconfig: string,
                            platform: string, cpid: string, bdid: string,
                            firmwares: Option<seq<F>>, boards: Option<seq<B>>): (r: IDevice<F, B>)
    ensures && r.name == name
            && r.identifier == identifier
            && r.boardconfig == boardconfig
            && r.platform == platform
            && r.cpid == cpid
            && r.bdid == bdid
            && r.firmwares == firmwares
            && r.boards == boards
  {
    IDevice(name, identifier, boardconfig, platform, cpid, bdid, firmwares, boards)
  }

  /** One package of a macOS installer. */
  datatype IntelMacOSPkg = IntelMacOSPkg(filename: string, uri: string, filesize: FileSize)

  /** `IntelMacOSPkg(url, filesize)`: the filename is what follows the last
      `/` of the URL (all of it when there is none, `""` for an empty
      URL); it cannot fail. */
  function NewIntelMacOSPkg(url: string, filesize: int, humanize: int -> string)
    : (r: IntelMacOSPkg)
    ensures IsFinalSegment(url, '/', r.filename)
    ensures '/' !in url ==> r.filename == url
    ensures r.uri == url
    ensures r.filesize == FileSize(filesize, humanize(filesize))
  {
    LastSegmentFacts(url, '/');
    IntelMacOSPkg(LastSegment(url, '/'), url, FileSize(filesize, humanize(filesize)))
  }

  /** A macOS installer. Only the product id is known at construction;
      callers fill in the other fields afterwards. */
  class IntelMacOS {
    var productId: string
    var title: string
    var version: string
    var build: string
    var postdate: string
    var packages: seq<IntelMacOSPkg>

    constructor (productId: string)
      ensures this.productId == productId
      ensures title == "" && version == "" && build == "" && postdate == ""
      ensures packages == []
    {
      this.productId := productId;
      title := "";
      version := "";
      build := "";
      postdate := "";
      packages := [];
    }
  }

  /** `CydiaPackage`: a record with no fields. */
  datatype CydiaPackage = CydiaPackage
}
