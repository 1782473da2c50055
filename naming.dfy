/**
 * The names the service gives its artifacts: the generated core name
 * `image_<YYYYMMDD_HHMMSS>_<8 hex digits>.<ext>`, the stored names
 * `original_<core>` and `result_<core>`, the download name `no-bg_<core>`,
 * and the path join that places them in the upload folder.
 * The clock reading and the random UUID are parameters.
 */
module Naming {
  import opened Wrappers
  import opened Uploads

  // ---------------------------------------------------------------------
  // The clock reading and its `%Y%m%d_%H%M%S` rendering
  // ---------------------------------------------------------------------

  /** A local wall-clock reading with second precision. */
  datatype DateTime = DateTime(year: nat, month: nat, day: nat, hour: nat, minute: nat, second: nat)

  predicate IsLeapYear(year: nat)
  {
    year % 4 == 0 && (year % 100 != 0 || year % 400 == 0)
  }

  function DaysInMonth(year: nat, month: nat): nat
    requires 1 <= month <= 12
  {
    if month == 2 then (if IsLeapYear(year) then 29 else 28)
    else if month in {4, 6, 9, 11} then 30
    else 31
  }

  /** The readings a clock can produce; years have four digits. */
  predicate ValidDateTime(t: DateTime)
  {
    && 1000 <= t.year <= 9999
    && 1 <= t.month <= 12
    && 1 <= t.day <= DaysInMonth(t.year, t.month)
    && t.hour < 24 && t.minute < 60 && t.second < 60
  }

  function Pow10(n: nat): (r: nat)
    ensures r >= 1
  {
    if n == 0 then 1 else 10 * Pow10(n - 1)
  }

  predicate IsDigit(c: char)
  {
    '0' <= c <= '9'
  }

  predicate AllDigits(s: string)
  {
    forall i :: 0 <= i < |s| ==> IsDigit(s[i])
  }

  function DigitChar(d: nat): (c: char)
    requires d < 10
    ensures IsDigit(c)
  {
    ('0' as int + d) as char
  }

  function DigitValue(c: char): (d: nat)
    requires IsDigit(c)
    ensures d < 10 && DigitChar(d) == c
  {
    c as int - '0' as int
  }

  /** `n` in exactly `width` decimal digits, padded with leading zeros (strftime's `%m` and kin). */
  function Decimal(n: nat, width: nat): (s: string)
    requires n < Pow10(width)
    ensures |s| == width && AllDigits(s)
    decreases width
  {
    if width == 0 then "" else Decimal(n / 10, width - 1) + [DigitChar(n % 10)]
  }

  /** The number a string of decimal digits denotes. */
  function ParseDecimal(s: string): nat
    requires AllDigits(s)
  {
    if s == [] then 0 else 10 * ParseDecimal(s[..|s| - 1]) + DigitValue(s[|s| - 1])
  }

  lemma {:induction false} DecimalRoundTrip(n: nat, width: nat)
    requires n < Pow10(width)
    ensures ParseDecimal(Decimal(n, width)) == n
    decreases width
  {
    if width > 0 {
      var s := Decimal(n, width);
      assert s[..|s| - 1] == Decimal(n / 10, width - 1);
      DecimalRoundTrip(n / 10, width - 1);
    }
  }

  /** `strftime("%Y%m%d_%H%M%S")`. */
  function FormatTimestamp(t: DateTime): (s: string)
    requires ValidDateTime(t)
    ensures |s| == 15 && s[8] == '_'
    ensures AllDigits(s[..8]) && AllDigits(s[9..])
  {
    var date := Decimal(t.year, 4) + Decimal(t.month, 2) + Decimal(t.day, 2);
    var time := Decimal(t.hour, 2) + Decimal(t.minute, 2) + Decimal(t.second, 2);
    assert (date + "_" + time)[..8] == date && (date + "_" + time)[9..] == time;
    date + "_" + time
  }

  /** Reads a `YYYYMMDD_HHMMSS` stamp back into its fields. */
  function ParseTimestamp(s: string): DateTime
    requires |s| == 15 && AllDigits(s[..8]) && AllDigits(s[9..])
  {
    assert forall i :: 0 <= i < 8 ==> IsDigit(s[i]) by {
      forall i | 0 <= i < 8 ensures IsDigit(s[i]) { assert s[..8][i] == s[i]; }
    }
    assert forall i :: 9 <= i < 15 ==> IsDigit(s[i]) by {
      forall i | 9 <= i < 15 ensures IsDigit(s[i]) { assert s[9..][i - 9] == s[i]; }
    }
    DateTime(ParseDecimal(s[0..4]), ParseDecimal(s[4..6]), ParseDecimal(s[6..8]),
             ParseDecimal(s[9..11]), ParseDecimal(s[11..13]), ParseDecimal(s[13..15]))
  }

  /** Each field of the clock reading sits at a fixed slice of the stamp. */
  lemma TimestampFields(t: DateTime)
    requires ValidDateTime(t)
    ensures var s := FormatTimestamp(t);
      && s[0..4] == Decimal(t.year, 4) && s[4..6] == Decimal(t.month, 2) && s[6..8] == Decimal(t.day, 2)
      && s[9..11] == Decimal(t.hour, 2) && s[11..13] == Decimal(t.minute, 2) && s[13..15] == Decimal(t.second, 2)
  {
  }

  lemma TimestampRoundTrip(t: DateTime)
    requires ValidDateTime(t)
    ensures ParseTimestamp(FormatTimestamp(t)) == t
  {
    TimestampFields(t);
    DecimalRoundTrip(t.year, 4);
    DecimalRoundTrip(t.month, 2);
    DecimalRoundTrip(t.day, 2);
    DecimalRoundTrip(t.hour, 2);
    DecimalRoundTrip(t.minute, 2);
    DecimalRoundTrip(t.second, 2);
  }

  /** Two different clock readings never render to the same stamp. */
  lemma TimestampInjective(t1: DateTime, t2: DateTime)
    requires ValidDateTime(t1) && ValidDateTime(t2)
    ensures FormatTimestamp(t1) == FormatTimestamp(t2) <==> t1 == t2
  {
    if FormatTimestamp(t1) == FormatTimestamp(t2) {
      TimestampRoundTrip(t1);
      TimestampRoundTrip(t2);
    }
  }

  // ---------------------------------------------------------------------
  // The random part: the first eight characters of `str(uuid4())`
  // ---------------------------------------------------------------------

  predicate IsLowerHex(c: char)
  {
    IsDigit(c) || 'a' <= c <= 'f'
  }

  /** The canonical text of a UUID: `8-4-4-4-12` lower-case hex digits. */
  predicate CanonicalUuidText(u: string)
  {
    |u| == 36 && forall i :: 0 <= i < 36 ==> if i in {8, 13, 18, 23} then u[i] == '-' else IsLowerHex(u[i])
  }

  /** `str(uuid)[:8]`. */
  function ShortId(uuid: string): (id: string)
    requires CanonicalUuidText(uuid)
    ensures |id| == 8 && forall i :: 0 <= i < 8 ==> IsLowerHex(id[i])
  {
    uuid[..8]
  }

  // ---------------------------------------------------------------------
  // The generated core name
  // ---------------------------------------------------------------------

  const IMAGE_PREFIX := "image_"

  /**
   * The f-string `image_{timestamp}_{unique_id}.{ext}`. With a 15-character
   * stamp and an 8-character id every field sits at a fixed offset.
   */
  function FormatName(stamp: string, id: string, ext: string): (name: string)
    requires |stamp| == 15 && |id| == 8
    ensures |name| == 31 + |ext|
    ensures name[..6] == IMAGE_PREFIX && name[6..21] == stamp && name[21] == '_'
    ensures name[22..30] == id && name[30] == '.' && name[31..] == ext
  {
    IMAGE_PREFIX + stamp + "_" + id + "." + ext
  }

  /**
   * `generate_unique_filename`. The caller must supply a name containing
   * '.', since `rsplit('.', 1)[1]` raises otherwise; the handler only calls
   * it on names the validator accepted.
   */
  function GenerateUniqueFilename(original: string, stamp: DateTime, uuid: string): (name: string)
    requires '.' in original
    requires ValidDateTime(stamp) && CanonicalUuidText(uuid)
    ensures |name| == 31 + |Extension(original)|
    ensures name[6..21] == FormatTimestamp(stamp) && name[22..30] == ShortId(uuid)
    ensures name[31..] == Extension(original)
  {
    FormatName(FormatTimestamp(stamp), ShortId(uuid), Extension(original))
  }

  /** Text that can sit inside one path component without ending a name's stem. */
  predicate NoDotOrSlash(s: string)
  {
    forall i :: 0 <= i < |s| ==> s[i] != '.' && s[i] != '/'
  }

  lemma StampAndIdClean(stamp: DateTime, uuid: string)
    requires ValidDateTime(stamp) && CanonicalUuidText(uuid)
    ensures NoDotOrSlash(FormatTimestamp(stamp)) && NoDotOrSlash(ShortId(uuid))
  {
  }

  /** In a name built from a clean stamp and id, the last '.' is the one before the extension. */
  lemma FormatNameSplits(stamp: string, id: string, ext: string)
    requires |stamp| == 15 && |id| == 8 && NoDotOrSlash(stamp) && NoDotOrSlash(id) && '.' !in ext
    ensures var name := FormatName(stamp, id, ext);
      '.' in name && RSplitOnce(name, '.')[1] == ext && (forall k :: 0 <= k < 30 ==> name[k] != '/')
  {
  }

  /** A name built from a clean stamp and id around an allowed extension is itself allowed. */
  lemma FormatNameAllowed(stamp: string, id: string, ext: string)
    requires |stamp| == 15 && |id| == 8 && NoDotOrSlash(stamp) && NoDotOrSlash(id)
    requires ext in ALLOWED_EXTENSIONS
    ensures var name := FormatName(stamp, id, ext);
      && name[..|IMAGE_PREFIX|] == IMAGE_PREFIX
      && name[|name| - |ext| - 1..] == "." + ext
      && '.' in name && Extension(name) == ext
      && AllowedFile(name)
  {
    var name := FormatName(stamp, id, ext);
    AllowedExtensionClean(ext);
    FormatNameSplits(stamp, id, ext);
    assert name[30..] == [name[30]] + name[31..];
  }

  /**
   * The generated name passes the validator itself, keeps the original's
   * lowered extension, starts with `image_` and ends with '.' plus that
   * extension.
   */
  lemma GeneratedNameIsAllowed(original: string, stamp: DateTime, uuid: string)
    requires AllowedFile(original) && ValidDateTime(stamp) && CanonicalUuidText(uuid)
    ensures var name := GenerateUniqueFilename(original, stamp, uuid);
      && name[..|IMAGE_PREFIX|] == IMAGE_PREFIX
      && name[|name| - |Extension(original)| - 1..] == "." + Extension(original)
      && '.' in name && Extension(name) == Extension(original)
      && AllowedFile(name)
  {
    StampAndIdClean(stamp, uuid);
    FormatNameAllowed(FormatTimestamp(stamp), ShortId(uuid), Extension(original));
  }

  /** Distinct (stamp, id) pairs give distinct names, and conversely. */
  lemma GeneratedNameInjective(f1: string, t1: DateTime, u1: string, f2: string, t2: DateTime, u2: string)
    requires '.' in f1 && ValidDateTime(t1) && CanonicalUuidText(u1)
    requires '.' in f2 && ValidDateTime(t2) && CanonicalUuidText(u2)
    ensures GenerateUniqueFilename(f1, t1, u1) == GenerateUniqueFilename(f2, t2, u2)
        <==> t1 == t2 && ShortId(u1) == ShortId(u2) && Extension(f1) == Extension(f2)
  {
    var n1 := GenerateUniqueFilename(f1, t1, u1);
    var n2 := GenerateUniqueFilename(f2, t2, u2);
    if n1 == n2 {
      assert FormatTimestamp(t1) == n1[6..21] == FormatTimestamp(t2);
      TimestampInjective(t1, t2);
    }
  }

  /** A generated name has no '/', so it names an entry directly inside the upload folder. */
  lemma GeneratedNameHasNoSlash(original: string, stamp: DateTime, uuid: string)
    requires AllowedFile(original) && ValidDateTime(stamp) && CanonicalUuidText(uuid)
    ensures '/' !in GenerateUniqueFilename(original, stamp, uuid)
  {
    var ts, id, ext := FormatTimestamp(stamp), ShortId(uuid), Extension(original);
    var name := FormatName(ts, id, ext);
    assert name == GenerateUniqueFilename(original, stamp, uuid);
    AllowedExtensionClean(ext);
    StampAndIdClean(stamp, uuid);
    FormatNameSplits(ts, id, ext);
    forall k | 30 <= k < |name| ensures name[k] != '/' {
      if k > 30 { assert name[k] == name[31..][k - 31]; }
    }
  }

  // ---------------------------------------------------------------------
  // Stored, download and path names
  // ---------------------------------------------------------------------

  const ORIGINAL_PREFIX := "original_"
  const RESULT_PREFIX := "result_"
  const DOWNLOAD_PREFIX := "no-bg_"

  /** The upload folder, relative to the working directory. */
  const UPLOAD_FOLDER := "static/uploads/"

  /** Name of the stored upload. */
  function OriginalName(core: string): (stored: string)
    ensures StripPrefix(stored, ORIGINAL_PREFIX) == Some(core)
    ensures StripPrefix(stored, RESULT_PREFIX).None?
  {
    assert (ORIGINAL_PREFIX + core)[..|ORIGINAL_PREFIX|] == ORIGINAL_PREFIX;
    assert (ORIGINAL_PREFIX + core)[0] != RESULT_PREFIX[0];
    ORIGINAL_PREFIX + core
  }

  /** Name of the stored processed image; also where `/download/<core>` looks. */
  function ResultName(core: string): (stored: string)
    ensures StripPrefix(stored, RESULT_PREFIX) == Some(core)
    ensures StripPrefix(stored, ORIGINAL_PREFIX).None?
  {
    assert (RESULT_PREFIX + core)[..|RESULT_PREFIX|] == RESULT_PREFIX;
    assert (RESULT_PREFIX + core)[0] != ORIGINAL_PREFIX[0];
    RESULT_PREFIX + core
  }

  /** The attachment name a download is offered under. */
  function DownloadName(core: string): (attachment: string)
    ensures StripPrefix(attachment, DOWNLOAD_PREFIX) == Some(core)
  {
    assert (DOWNLOAD_PREFIX + core)[..|DOWNLOAD_PREFIX|] == DOWNLOAD_PREFIX;
    DOWNLOAD_PREFIX + core
  }

  /** The rest of `s` after `prefix`, if `s` starts with it. */
  function StripPrefix(s: string, prefix: string): (r: Option<string>)
    ensures r.Some? <==> |prefix| <= |s| && s[..|prefix|] == prefix
    ensures r.Some? ==> s == prefix + r.value
  {
    if |prefix| <= |s| && s[..|prefix|] == prefix then Some(s[|prefix|..]) else None
  }

  /** `posixpath.join(folder, name)` for two components. */
  function Join(folder: string, name: string): (path: string)
    ensures |name| <= |path| && path[|path| - |name|..] == name
    ensures |name| > 0 && name[0] == '/' ==> path == name
    ensures !(|name| > 0 && name[0] == '/') ==>
      && var dir := path[..|path| - |name|];
      && (dir == [] || dir[|dir| - 1] == '/')
      && (dir == folder || dir == folder + "/")
      && (dir != folder ==> folder != [] && folder[|folder| - 1] != '/')
  {
    if |name| > 0 && name[0] == '/' then name
    else if folder == [] || folder[|folder| - 1] == '/' then folder + name
    else folder + "/" + name
  }

  /** An original artifact never has the name of a result artifact, and each naming is one-to-one. */
  lemma StoredNamesDistinct(a: string, b: string)
    ensures OriginalName(a) != ResultName(b)
    ensures OriginalName(a) == OriginalName(b) <==> a == b
    ensures ResultName(a) == ResultName(b) <==> a == b
  {
    assert OriginalName(a)[0] == 'o' && ResultName(b)[0] == 'r';
    if OriginalName(a) == OriginalName(b) {
      assert Some(a) == StripPrefix(OriginalName(b), ORIGINAL_PREFIX);
    }
    if ResultName(a) == ResultName(b) {
      assert Some(a) == StripPrefix(ResultName(b), RESULT_PREFIX);
    }
  }

  /** The result name is derived from the original name by substituting the prefix. */
  function ResultForOriginal(stored: string): (r: Option<string>)
  {
    match StripPrefix(stored, ORIGINAL_PREFIX)
    case Some(core) => Some(ResultName(core))
    case None => None
  }

  lemma ResultForOriginalPairs(core: string)
    ensures ResultForOriginal(OriginalName(core)) == Some(ResultName(core))
    ensures ResultForOriginal(ResultName(core)) == None
  {
  }

  /** Both stored names are placed directly under the upload folder. */
  lemma JoinStoredNames(core: string)
    ensures Join(UPLOAD_FOLDER, OriginalName(core)) == UPLOAD_FOLDER + OriginalName(core)
    ensures Join(UPLOAD_FOLDER, ResultName(core)) == UPLOAD_FOLDER + ResultName(core)
  {
  }
}
