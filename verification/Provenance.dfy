/**
Admission of a dataset manifest. URL and date parsing are left to the caller as
two predicates; every other check is modelled.
*/
module Provenance {
  import opened Wrappers
  import opened Numbers
  import opened Text

  datatype FileRef = FileRef(path: string, sha256: string)

  datatype Entry = Entry(symbol: string, file: FileRef)

  /** The file references of a manifest, by symbol and in key order. */
  type Files = files: seq<Entry> |
    forall i, j | 0 <= i < j < |files| :: files[i].symbol != files[j].symbol
    witness []

  datatype Manifest = Manifest(
    schemaVersion: int,
    datasetKind: string,
    sourceName: string,
    sourceUrl: string,
    license: string,
    retrievedAt: string,
    timezone: string,
    intervalMinutes: real,
    files: Files
  )

  datatype Parsers = Parsers(isHttpsUrl: string -> bool, isDate: string -> bool)

  datatype Rejection =
    | UnsupportedSchema
    | UnknownDatasetKind
    | SyntheticNotAllowed
    | SourceNameRequired
    | NotHttps
    | LicenseRequired
    | InvalidRetrievedAt
    | TimezoneRequired
    | InvalidInterval
    | MissingFile(symbol: string)
    | InvalidSha256(symbol: string)
    | UnexpectedSymbols(symbols: seq<string>)

  function Lower(c: char): char {
    if 'A' <= c <= 'Z' then c - 'A' + 'a' else c
  }

  function LowerCase(s: string): string {
    seq(|s|, i requires 0 <= i < |s| => Lower(s[i]))
  }

  predicate IsConcreteLicense(license: string) {
    Trim(license) != "" && LowerCase(Trim(license)) !in {"unknown", "tbd", "none"}
  }

  predicate IsHexDigit(c: char) {
    '0' <= c <= '9' || 'a' <= c <= 'f' || 'A' <= c <= 'F'
  }

  predicate IsSha256(s: string) {
    |s| == 64 && forall c <- s :: IsHexDigit(c)
  }

  /** A whole number of minutes that divides half an hour. */
  predicate IsInterval(minutes: int) {
    0 < minutes && 30 % minutes == 0
  }

  predicate IsIntervalNumber(minutes: real) {
    IsWhole(minutes) && IsInterval(minutes.Floor)
  }

  // ---------- The header checks ----------

  const HEADER_CHECKS := [
    UnsupportedSchema, UnknownDatasetKind, SyntheticNotAllowed, SourceNameRequired, NotHttps, LicenseRequired,
    InvalidRetrievedAt, TimezoneRequired, InvalidInterval]

  /** `text` is the lower-case `word`, some of its letters perhaps in upper case, 32 code points below. */
  ghost predicate SameLetters(text: string, word: string) {
    && |text| == |word|
    && forall i | 0 <= i < |word| :: text[i] == word[i] || text[i] as int == word[i] as int - 32
  }

  /** `license` is `word` in any case, with any white space around it. */
  ghost predicate Spells(license: string, word: string) {
    exists before, after, core ::
      license == before + core + after && Blank(before) && Blank(after) && SameLetters(core, word)
  }

  ghost predicate StartsAndEndsInText(word: string) {
    Tight(word) && forall c <- word :: 'a' <= c <= 'z'
  }

  /** Whether the manifest is in order in the respect that `check` is about. */
  ghost predicate InOrder(parsers: Parsers, m: Manifest, allowSynthetic: bool, check: Rejection) {
    match check
    case UnsupportedSchema => m.schemaVersion == 1
    case UnknownDatasetKind => m.datasetKind in {"historical", "synthetic"}
    case SyntheticNotAllowed => m.datasetKind != "synthetic" || allowSynthetic
    case SourceNameRequired => !Blank(m.sourceName)
    case NotHttps => parsers.isHttpsUrl(m.sourceUrl)
    case LicenseRequired =>
      !Blank(m.license) && !Spells(m.license, "unknown") && !Spells(m.license, "tbd") && !Spells(m.license, "none")
    case InvalidRetrievedAt => parsers.isDate(m.retrievedAt)
    case TimezoneRequired => !Blank(m.timezone)
    case InvalidInterval => m.intervalMinutes in {1.0, 2.0, 3.0, 5.0, 6.0, 10.0, 15.0, 30.0}
    case _ => true
  }

  lemma LowerIsText(c: char)
    ensures 'a' <= Lower(c) <= 'z' ==> !IsSpace(c)
  {
  }

  lemma LowerLetter(c: char, letter: char)
    requires 'a' <= letter <= 'z'
    ensures Lower(c) == letter <==> c == letter || c as int == letter as int - 32
  {
  }

  lemma LowerCaseLetters(text: string, word: string)
    requires forall c <- word :: 'a' <= c <= 'z'
    ensures LowerCase(text) == word <==> SameLetters(text, word)
  {
    forall i | 0 <= i < |text| && |text| == |word|
      ensures LowerCase(text)[i] == word[i] <==> text[i] == word[i] || text[i] as int == word[i] as int - 32
    {
      assert word[i] in word;
      LowerLetter(text[i], word[i]);
    }
  }

  /** A text in letters has no white space at its ends. */
  lemma LettersAreTight(text: string, word: string)
    requires StartsAndEndsInText(word) && LowerCase(text) == word
    ensures Tight(text)
  {
    assert Lower(text[0]) == word[0] && word[0] in word;
    assert Lower(text[|text| - 1]) == word[|word| - 1] && word[|word| - 1] in word;
    LowerIsText(text[0]);
    LowerIsText(text[|text| - 1]);
  }

  lemma SpellsTrimmed(license: string, word: string)
    requires StartsAndEndsInText(word)
    ensures Spells(license, word) <==> LowerCase(Trim(license)) == word
  {
    LowerCaseLetters(Trim(license), word);
    if LowerCase(Trim(license)) == word {
      var pre, post := TrimMeaning(license);
    }
    if Spells(license, word) {
      var before, after, core :|
        license == before + core + after && Blank(before) && Blank(after) && SameLetters(core, word);
      LowerCaseLetters(core, word);
      LettersAreTight(core, word);
      TrimSurrounded(before, core, after);
    }
  }

  lemma IntervalNumbers(minutes: real)
    ensures IsIntervalNumber(minutes) <==> minutes in {1.0, 2.0, 3.0, 5.0, 6.0, 10.0, 15.0, 30.0}
  {
    AdmittedIntervals(minutes.Floor);
  }

  /** The condition that the code tests for `check`. */
  predicate Passes(parsers: Parsers, m: Manifest, allowSynthetic: bool, check: Rejection) {
    match check
    case UnsupportedSchema => m.schemaVersion == 1
    case UnknownDatasetKind => m.datasetKind == "historical" || m.datasetKind == "synthetic"
    case SyntheticNotAllowed => !(m.datasetKind == "synthetic" && !allowSynthetic)
    case SourceNameRequired => Trim(m.sourceName) != ""
    case NotHttps => parsers.isHttpsUrl(m.sourceUrl)
    case LicenseRequired => IsConcreteLicense(m.license)
    case InvalidRetrievedAt => parsers.isDate(m.retrievedAt)
    case TimezoneRequired => Trim(m.timezone) != ""
    case InvalidInterval => IsIntervalNumber(m.intervalMinutes)
    case _ => true
  }

  /** The conditions mean what they are for. */
  lemma PassesInOrder(parsers: Parsers, m: Manifest, allowSynthetic: bool, check: Rejection)
    ensures Passes(parsers, m, allowSynthetic, check) <==> InOrder(parsers, m, allowSynthetic, check)
  {
    match check
    case SourceNameRequired => BlankTrimsAway(m.sourceName);
    case TimezoneRequired => BlankTrimsAway(m.timezone);
    case InvalidInterval => IntervalNumbers(m.intervalMinutes);
    case LicenseRequired =>
      BlankTrimsAway(m.license);
      SpellsTrimmed(m.license, "unknown");
      SpellsTrimmed(m.license, "tbd");
      SpellsTrimmed(m.license, "none");
    case _ =>
  }

  /** The first of `checks` that the manifest does not pass. */
  function FirstFailing(parsers: Parsers, m: Manifest, allowSynthetic: bool, checks: seq<Rejection>)
    : (failing: Option<Rejection>)
    ensures failing.None? <==> forall i | 0 <= i < |checks| :: InOrder(parsers, m, allowSynthetic, checks[i])
    ensures failing.Some? ==> exists i | 0 <= i < |checks| ::
      && failing == Some(checks[i]) && !InOrder(parsers, m, allowSynthetic, checks[i])
      && forall j | 0 <= j < i :: InOrder(parsers, m, allowSynthetic, checks[j])
  {
    if checks == [] then None
    else
      PassesInOrder(parsers, m, allowSynthetic, checks[0]);
      if !Passes(parsers, m, allowSynthetic, checks[0]) then Some(checks[0])
      else FirstFailing(parsers, m, allowSynthetic, checks[1..])
  }

  // ---------- The files ----------

  /** The reference stored under `symbol`, if any. */
  function FileOf(files: seq<Entry>, symbol: string): (file: Option<FileRef>)
    ensures file.Some? ==> Entry(symbol, file.value) in files
    ensures file.None? ==> forall entry <- files :: entry.symbol != symbol
  {
    if files == [] then None
    else if files[0].symbol == symbol then Some(files[0].file)
    else FileOf(files[1..], symbol)
  }

  predicate HasPath(m: Manifest, symbol: string) {
    var file := FileOf(m.files, symbol);
    file.Some? && Trim(file.value.path) != ""
  }

  predicate FileOk(m: Manifest, symbol: string) {
    HasPath(m, symbol) && IsSha256(FileOf(m.files, symbol).value.sha256)
  }

  /** Some reference of the manifest names a file for `symbol`. */
  ghost predicate Supplies(m: Manifest, symbol: string) {
    exists i | 0 <= i < |m.files| :: m.files[i].symbol == symbol && !Blank(m.files[i].file.path)
  }

  ghost predicate IsDigest(s: string) {
    |s| == 64 && forall c <- s :: c in "0123456789abcdefABCDEF"
  }

  /** Some reference of the manifest names a file for `symbol`, and a digest for it. */
  ghost predicate SuppliesDigest(m: Manifest, symbol: string) {
    exists i | 0 <= i < |m.files| ::
      m.files[i].symbol == symbol && !Blank(m.files[i].file.path) && IsDigest(m.files[i].file.sha256)
  }

  lemma HexCharacters(c: char)
    ensures IsHexDigit(c) <==> c in "0123456789abcdefABCDEF"
  {
    var digits := "0123456789abcdefABCDEF";
    assert forall i: nat | i < 10 :: digits[i] == '0' + i as char;
    assert forall i: nat | 10 <= i < 16 :: digits[i] == 'a' + (i - 10) as char;
    assert forall i: nat | 16 <= i < 22 :: digits[i] == 'A' + (i - 16) as char;
    if '0' <= c <= '9' {
      assert digits[(c - '0') as nat] == c;
    } else if 'a' <= c <= 'f' {
      assert digits[(c - 'a') as nat + 10] == c;
    } else if 'A' <= c <= 'F' {
      assert digits[(c - 'A') as nat + 16] == c;
    }
  }

  /** The code's look-ups mean that a reference is there and in order. */
  lemma FileChecks(m: Manifest, symbol: string)
    ensures HasPath(m, symbol) <==> Supplies(m, symbol)
    ensures FileOk(m, symbol) <==> SuppliesDigest(m, symbol)
  {
    var file := FileOf(m.files, symbol);
    if file.Some? {
      var i :| 0 <= i < |m.files| && m.files[i] == Entry(symbol, file.value);
      assert forall j | 0 <= j < |m.files| && m.files[j].symbol == symbol :: j == i;
      BlankTrimsAway(file.value.path);
      DigestCharacters(file.value.sha256);
    } else {
      assert forall j | 0 <= j < |m.files| :: m.files[j] in m.files;
    }
  }

  lemma DigestCharacters(s: string)
    ensures IsSha256(s) <==> IsDigest(s)
  {
    forall c: char
      ensures IsHexDigit(c) <==> c in "0123456789abcdefABCDEF"
    {
      HexCharacters(c);
    }
  }

  /** The symbols of `files` that are not expected, in key order. */
  function Unexpected(files: seq<Entry>, expected: seq<string>): (symbols: seq<string>)
    ensures forall symbol :: symbol in symbols <==>
      symbol !in expected && exists i | 0 <= i < |files| :: files[i].symbol == symbol
    ensures |symbols| <= |files|
  {
    if files == [] then []
    else
      var rest := Unexpected(files[1..], expected);
      assert files == [files[0]] + files[1..];
      if files[0].symbol in expected then rest else [files[0].symbol] + rest
  }

  /** The excess symbols of two runs of keys are those of the first, then those of the second: key order is kept. */
  lemma {:induction false} UnexpectedInOrder(files: seq<Entry>, more: seq<Entry>, expected: seq<string>)
    ensures Unexpected(files + more, expected) == Unexpected(files, expected) + Unexpected(more, expected)
  {
    if files == [] {
      assert files + more == more;
    } else {
      assert (files + more)[1..] == files[1..] + more;
      UnexpectedInOrder(files[1..], more, expected);
    }
  }

  /** The nine respects in which a header must be in order. */
  ghost predicate HeaderInOrder(parsers: Parsers, m: Manifest, allowSynthetic: bool) {
    && InOrder(parsers, m, allowSynthetic, UnsupportedSchema)
    && InOrder(parsers, m, allowSynthetic, UnknownDatasetKind)
    && InOrder(parsers, m, allowSynthetic, SyntheticNotAllowed)
    && InOrder(parsers, m, allowSynthetic, SourceNameRequired)
    && InOrder(parsers, m, allowSynthetic, NotHttps)
    && InOrder(parsers, m, allowSynthetic, LicenseRequired)
    && InOrder(parsers, m, allowSynthetic, InvalidRetrievedAt)
    && InOrder(parsers, m, allowSynthetic, TimezoneRequired)
    && InOrder(parsers, m, allowSynthetic, InvalidInterval)
  }

  /** The place of a check in the order in which the code makes them. */
  ghost function Rank(check: Rejection): nat {
    match check
    case UnsupportedSchema => 0
    case UnknownDatasetKind => 1
    case SyntheticNotAllowed => 2
    case SourceNameRequired => 3
    case NotHttps => 4
    case LicenseRequired => 5
    case InvalidRetrievedAt => 6
    case TimezoneRequired => 7
    case InvalidInterval => 8
    case MissingFile(_) => 9
    case InvalidSha256(_) => 10
    case UnexpectedSymbols(_) => 11
  }

  /** `check` is the first respect in which the header is not in order. */
  ghost predicate FirstOutOfOrder(parsers: Parsers, m: Manifest, allowSynthetic: bool, check: Rejection) {
    && Rank(check) <= 8 && !InOrder(parsers, m, allowSynthetic, check)
    && forall earlier: Rejection | Rank(earlier) < Rank(check) :: InOrder(parsers, m, allowSynthetic, earlier)
  }

  /** The list of header checks holds all nine, each in its place. */
  lemma ChecksByRank(check: Rejection)
    ensures |HEADER_CHECKS| == 9 && forall i | 0 <= i < 9 :: Rank(HEADER_CHECKS[i]) == i
    ensures Rank(check) <= 8 ==> HEADER_CHECKS[Rank(check)] == check
  {
    assert HEADER_CHECKS[0].UnsupportedSchema? && HEADER_CHECKS[1].UnknownDatasetKind?;
    assert HEADER_CHECKS[2].SyntheticNotAllowed? && HEADER_CHECKS[3].SourceNameRequired?;
    assert HEADER_CHECKS[4].NotHttps? && HEADER_CHECKS[5].LicenseRequired?;
    assert HEADER_CHECKS[6].InvalidRetrievedAt? && HEADER_CHECKS[7].TimezoneRequired?;
    assert HEADER_CHECKS[8].InvalidInterval?;
  }

  /** Going through the list decides whether the header is in order, and finds the first respect in which it is not. */
  lemma HeaderDecided(parsers: Parsers, m: Manifest, allowSynthetic: bool)
    ensures var failing := FirstFailing(parsers, m, allowSynthetic, HEADER_CHECKS);
      && (failing.None? <==> HeaderInOrder(parsers, m, allowSynthetic))
      && (failing.Some? ==> FirstOutOfOrder(parsers, m, allowSynthetic, failing.value))
  {
    forall check: Rejection
      ensures |HEADER_CHECKS| == 9 && forall i | 0 <= i < 9 :: Rank(HEADER_CHECKS[i]) == i
      ensures Rank(check) <= 8 ==> HEADER_CHECKS[Rank(check)] == check
    {
      ChecksByRank(check);
    }
    HeaderByRank(parsers, m, allowSynthetic);
  }

  lemma HeaderByRank(parsers: Parsers, m: Manifest, allowSynthetic: bool)
    ensures HeaderInOrder(parsers, m, allowSynthetic) <==>
            forall check: Rejection | Rank(check) <= 8 :: InOrder(parsers, m, allowSynthetic, check)
  {
    assert Rank(UnsupportedSchema) <= 8 && Rank(UnknownDatasetKind) <= 8 && Rank(SyntheticNotAllowed) <= 8;
    assert Rank(SourceNameRequired) <= 8 && Rank(NotHttps) <= 8 && Rank(LicenseRequired) <= 8;
    assert Rank(InvalidRetrievedAt) <= 8 && Rank(TimezoneRequired) <= 8 && Rank(InvalidInterval) <= 8;
  }

  /** The manifest describes itself properly and covers the expected symbols, all of them and no others. */
  ghost predicate Admissible(parsers: Parsers, m: Manifest, expected: seq<string>, allowSynthetic: bool) {
    && HeaderInOrder(parsers, m, allowSynthetic)
    && (forall entry <- m.files :: entry.symbol in expected)
    && AllOk(m, expected)
  }

  ghost predicate AllOk(m: Manifest, symbols: seq<string>) {
    forall symbol <- symbols :: SuppliesDigest(m, symbol)
  }

  /** `symbol` is the first expected symbol whose file reference is not in order. */
  ghost predicate FirstBad(m: Manifest, expected: seq<string>, symbol: string) {
    exists i | 0 <= i < |expected| :: expected[i] == symbol && !SuppliesDigest(m, symbol) && AllOk(m, expected[..i])
  }

  /** `rejection` is the first objection to the manifest: to its header, then to its references, then to its keys. */
  ghost predicate FirstObjection(
    parsers: Parsers, m: Manifest, expected: seq<string>, allowSynthetic: bool, rejection: Rejection)
  {
    match rejection
    case MissingFile(symbol) =>
      HeaderInOrder(parsers, m, allowSynthetic) && FirstBad(m, expected, symbol) && !Supplies(m, symbol)
    case InvalidSha256(symbol) =>
      HeaderInOrder(parsers, m, allowSynthetic) && FirstBad(m, expected, symbol) && Supplies(m, symbol)
    case UnexpectedSymbols(symbols) =>
      && HeaderInOrder(parsers, m, allowSynthetic) && AllOk(m, expected)
      && symbols == Unexpected(m.files, expected) && symbols != []
    case _ => FirstOutOfOrder(parsers, m, allowSynthetic, rejection)
  }

  /** The checks before the files, in order, then those of each expected symbol, then the keys. */
  method ValidateProvenance(parsers: Parsers, m: Manifest, expected: seq<string>, allowSynthetic: bool)
    returns (rejection: Option<Rejection>)
    ensures rejection.None? <==> Admissible(parsers, m, expected, allowSynthetic)
    ensures rejection.Some? ==> FirstObjection(parsers, m, expected, allowSynthetic, rejection.value)
  {
    rejection := FirstFailing(parsers, m, allowSynthetic, HEADER_CHECKS);
    HeaderDecided(parsers, m, allowSynthetic);
    if rejection.Some? {
      return;
    }
    for i := 0 to |expected|
      invariant AllOk(m, expected[..i])
    {
      var symbol := expected[i];
      assert symbol in expected;
      FileChecks(m, symbol);
      if !HasPath(m, symbol) {
        return Some(MissingFile(symbol));
      }
      if !IsSha256(FileOf(m.files, symbol).value.sha256) {
        return Some(InvalidSha256(symbol));
      }
      assert expected[..i + 1] == expected[..i] + [symbol];
    }
    assert expected[..|expected|] == expected;
    var unexpected := Unexpected(m.files, expected);
    if unexpected != [] {
      assert unexpected[0] in unexpected;
      return Some(UnexpectedSymbols(unexpected));
    }
    forall entry | entry in m.files
      ensures entry.symbol in expected
    {
      assert entry.symbol !in unexpected;
    }
  }

  /** The admitted intervals, each with the whole number of bars that make half an hour. */
  lemma AdmittedIntervals(minutes: int)
    ensures IsInterval(minutes) <==> minutes in {1, 2, 3, 5, 6, 10, 15, 30}
    ensures IsInterval(minutes) ==> 1 <= 30 / minutes && 30 / minutes * minutes == 30
  {
    if 0 < minutes <= 30 {
      assert minutes in {1, 2, 3, 5, 6, 10, 15, 30} || 30 % minutes != 0;
    } else if 30 < minutes {
      assert 30 / minutes == 0;
    }
  }
}
