/**
  `getPiTemp` (RaspiInfo.java, lines 85-104): the CPU temperature, read first
  from the first line printed by `vcgencmd measure_temp`, then from the
  kernel's thermal-zone file, else the sentinel -1.

  The outside world arrives as data: what running the command and reading
  its first line produced, what reading the thermal-zone file produced, and
  the number parser. Only `IOException` is caught around each tier, so an
  array index or number format error raised while interpreting text leaves
  the method; `Thrown` carries it.
*/
module PiTemp {
  import opened Options
  import opened JavaStrings

  /** The exceptions other than `IOException` that the method can raise. */
  datatype Escape =
    /** `split("=")[1]` on an array of `length` elements. */
    | IndexOutOfBounds(index: int, length: nat)
    /** `Double.parseDouble` rejecting `input`. */
    | NumberFormat(input: string)

  /**
    The vendor command: either starting it or reading its output raised an
    `IOException`, or a first line was read (`None` when the output was
    empty, Java's `null`). `closeFails` says whether closing the reader at
    the end of the try-with-resources block raised an `IOException`.
  */
  datatype VendorOutcome =
    | VendorIOError
    | VendorLine(line: Option<string>, closeFails: bool)

  /** Reading the thermal-zone file: an `IOException`, or its text. */
  datatype FileOutcome =
    | FileIOError
    | FileText(content: string)

  /** What `getPiTemp` does: return a number, or throw. */
  datatype TempResult =
    | Reading(celsius: real)
    | Thrown(cause: Escape)

  /** `Double.parseDouble`, `None` where it throws `NumberFormatException`. */
  type Parser = string -> Option<real>

  /** The value returned when neither tier could be read. */
  const Unavailable: real := -1.0

  /** The thermal-zone file counts thousandths of a degree. */
  const MilliPerDegree: real := 1000.0

  const Delimiter: char := '='
  const Apostrophe: char := '\''
  const UnitLetter: char := 'C'
  const DegreeSign: char := '\U{B0}'

  /** No character that the vendor value is scrubbed of. */
  predicate NoUnitMarks(s: string) {
    Apostrophe !in s && UnitLetter !in s && DegreeSign !in s
  }

  /** A character the scrubbing keeps wherever it occurs: not blank, and not a unit mark. */
  predicate IsKept(c: char) {
    !IsBlank(c) && c != Apostrophe && c != UnitLetter && c != DegreeSign
  }

  /**
    The scrubbing applied to the vendor value: delete every apostrophe,
    letter C and degree sign, then trim. Every other non-blank character
    survives as often as it occurred; blanks survive only between two kept
    characters.
  */
  function CleanValue(v: string): (r: string)
    ensures NoUnitMarks(r)
    ensures IsTrimmed(r)
    ensures forall c :: c in r ==> c in v
    ensures forall c :: c in v && IsKept(c) ==> c in r
    ensures forall x :: IsKept(x) ==> multiset(r)[x] == multiset(v)[x]
  {
    var stripped := RemoveAll(RemoveAll(RemoveAll(v, Apostrophe), UnitLetter), DegreeSign);
    TrimKeepsNonBlank(stripped);
    StripKeepsCounts(v);
    Trim(stripped)
  }

  /** Scrubbing keeps every kept character exactly as often as it occurred. */
  lemma StripKeepsCounts(v: string)
    ensures var stripped := RemoveAll(RemoveAll(RemoveAll(v, Apostrophe), UnitLetter), DegreeSign);
      forall x :: IsKept(x) ==> multiset(Trim(stripped))[x] == multiset(v)[x]
  {
    var a := RemoveAll(v, Apostrophe);
    var b := RemoveAll(a, UnitLetter);
    var stripped := RemoveAll(b, DegreeSign);
    RemoveAllCounts(v, Apostrophe);
    RemoveAllCounts(a, UnitLetter);
    RemoveAllCounts(b, DegreeSign);
    TrimCountsNonBlank(stripped);
  }

  /** Text that is already scrubbed is left as it is, so scrubbing twice changes nothing. */
  lemma CleanValueFixed(v: string)
    requires NoUnitMarks(v) && IsTrimmed(v)
    ensures CleanValue(v) == v
  {
    TrimOfTrimmed(v);
  }

  lemma CleanValueIdempotent(v: string)
    ensures CleanValue(CleanValue(v)) == CleanValue(v)
  {
    CleanValueFixed(CleanValue(v));
  }

  /**
    Element [1] of the split line, scrubbed. The element is missing exactly
    when nothing but `=` follows the first `=`; otherwise it is the text up
    to the second `=`.
  */
  function VendorValue(line: string): (r: Result<string, Escape>)
    requires Delimiter in line
    ensures r.Err? <==> !HasTextAfterDelimiter(line, Delimiter)
    ensures r.Err? ==> r.error.IndexOutOfBounds? && r.error.index == 1
    ensures r.Err? ==> r.error.length == (if IndexOf(line, Delimiter) == 0 then 0 else 1)
    ensures r.Ok? ==> r.value == CleanValue(SecondField(line, Delimiter))
  {
    var parts := JavaSplit(line, Delimiter);
    if |parts| < 2 then Err(IndexOutOfBounds(1, |parts|))
    else
      SplitSecondElement(line, Delimiter);
      Ok(CleanValue(parts[1]))
  }

  /** The first tier is attempted only for a line that exists and holds `=`. */
  predicate TriesVendor(vendor: VendorOutcome) {
    vendor.VendorLine? && vendor.line.Some? && Delimiter in vendor.line.value
  }

  /** What the first tier leaves behind: a decision, or the fall to the second tier. */
  datatype VendorStep =
    | Decided(result: TempResult)
    | FallThrough

  /**
    The first tier (lines 86-95): nothing to decide without a line holding
    `=`; otherwise the index and number format errors escape, and a parsed
    value is returned unless closing the reader throws.
  */
  function VendorTier(vendor: VendorOutcome, parse: Parser): (step: VendorStep)
    ensures !TriesVendor(vendor) ==> step == FallThrough
    ensures TriesVendor(vendor) && VendorValue(vendor.line.value).Err?
      ==> step == Decided(Thrown(VendorValue(vendor.line.value).error))
    ensures TriesVendor(vendor) && VendorValue(vendor.line.value).Ok?
      ==> var v := VendorValue(vendor.line.value).value;
          (parse(v).None? ==> step == Decided(Thrown(NumberFormat(v))))
          && (parse(v).Some? && vendor.closeFails ==> step == FallThrough)
          && (parse(v).Some? && !vendor.closeFails ==> step == Decided(Reading(parse(v).value)))
    ensures step.Decided? && step.result.Reading? ==> !vendor.closeFails
  {
    if !TriesVendor(vendor) then FallThrough
    else
      match VendorValue(vendor.line.value)
      case Err(e) => Decided(Thrown(e))
      case Ok(v) =>
        match parse(v)
        case None => Decided(Thrown(NumberFormat(v)))
        case Some(t) => if vendor.closeFails then FallThrough else Decided(Reading(t))
  }

  /**
    The second tier (lines 97-103): the trimmed file text in thousandths of a
    degree. A file that cannot be read gives the sentinel; text that does not
    parse escapes as a number format error.
  */
  function ThermalTier(file: FileOutcome, parse: Parser): (r: TempResult)
    ensures file.FileIOError? ==> r == Reading(Unavailable)
    ensures file.FileText? && parse(Trim(file.content)).None?
      ==> r == Thrown(NumberFormat(Trim(file.content)))
    ensures file.FileText? && parse(Trim(file.content)).Some?
      ==> r == Reading(parse(Trim(file.content)).value / MilliPerDegree)
  {
    match file
    case FileIOError => Reading(Unavailable)
    case FileText(content) =>
      var text := Trim(content);
      match parse(text)
      case None => Thrown(NumberFormat(text))
      case Some(m) => Reading(m / MilliPerDegree)
  }

  /** `getPiTemp`. */
  function GetPiTemp(vendor: VendorOutcome, file: FileOutcome, parse: Parser): (r: TempResult)
    ensures !TriesVendor(vendor) ==> r == ThermalTier(file, parse)
    ensures TriesVendor(vendor) && !HasTextAfterDelimiter(vendor.line.value, Delimiter)
      ==> r.Thrown? && r.cause.IndexOutOfBounds? && r == Thrown(VendorValue(vendor.line.value).error)
    ensures TriesVendor(vendor) && HasTextAfterDelimiter(vendor.line.value, Delimiter)
        && parse(CleanValue(SecondField(vendor.line.value, Delimiter))).None?
      ==> r == Thrown(NumberFormat(CleanValue(SecondField(vendor.line.value, Delimiter))))
    ensures TriesVendor(vendor) && HasTextAfterDelimiter(vendor.line.value, Delimiter)
        && !vendor.closeFails
        && parse(CleanValue(SecondField(vendor.line.value, Delimiter))).Some?
      ==> r == Reading(parse(CleanValue(SecondField(vendor.line.value, Delimiter))).value)
    ensures TriesVendor(vendor) && HasTextAfterDelimiter(vendor.line.value, Delimiter)
        && vendor.closeFails
        && parse(CleanValue(SecondField(vendor.line.value, Delimiter))).Some?
      ==> r == ThermalTier(file, parse)
    ensures !TriesVendor(vendor) && file.FileIOError? ==> r == Reading(Unavailable)
    ensures !TriesVendor(vendor) && file.FileText? && parse(Trim(file.content)).Some?
      ==> r == Reading(parse(Trim(file.content)).value / MilliPerDegree)
  {
    match VendorTier(vendor, parse)
    case Decided(result) => result
    case FallThrough => ThermalTier(file, parse)
  }

  /**
    Once the first tier is attempted, the thermal-zone file matters only when
    the value parsed but closing the reader failed.
  */
  lemma VendorDecisionIgnoresFile(vendor: VendorOutcome, parse: Parser, file1: FileOutcome, file2: FileOutcome)
    requires TriesVendor(vendor)
    requires !vendor.closeFails || !HasTextAfterDelimiter(vendor.line.value, Delimiter)
      || parse(CleanValue(SecondField(vendor.line.value, Delimiter))).None?
    ensures GetPiTemp(vendor, file1, parse) == GetPiTemp(vendor, file2, parse)
    ensures GetPiTemp(vendor, file1, parse) == VendorTier(vendor, parse).result
  {
  }

  /** A first-tier exception is never turned into a second-tier attempt. */
  lemma VendorEscapeIsFinal(vendor: VendorOutcome, file: FileOutcome, parse: Parser)
    requires VendorTier(vendor, parse).Decided? && VendorTier(vendor, parse).result.Thrown?
    ensures GetPiTemp(vendor, file, parse) == VendorTier(vendor, parse).result
    ensures TriesVendor(vendor)
  {
  }

  /**
    The sentinel comes out when the first tier falls through (no line, no
    `=`, an `IOException`, or a close failure after a parse) and the file
    cannot be read...
  */
  lemma BothTiersFailGiveSentinel(vendor: VendorOutcome, parse: Parser)
    requires VendorTier(vendor, parse) == FallThrough
    ensures GetPiTemp(vendor, FileIOError, parse) == Reading(Unavailable)
  {
  }

  /**
    ...and otherwise only when a parsed reading is -1 itself: a vendor value
    of -1 read with a clean close, or a fall-through whose trimmed file text
    parses to -1000. A file text that does not parse throws instead.
  */
  lemma SentinelSources(vendor: VendorOutcome, file: FileOutcome, parse: Parser)
    ensures GetPiTemp(vendor, file, parse) == Reading(Unavailable)
        <==> ((VendorTier(vendor, parse) == FallThrough && file.FileIOError?)
          || (VendorTier(vendor, parse) == Decided(Reading(Unavailable)))
          || (VendorTier(vendor, parse) == FallThrough && file.FileText?
              && parse(Trim(file.content)) == Some(Unavailable * MilliPerDegree)))
  {
    var step := VendorTier(vendor, parse);
    if step.FallThrough? {
      assert GetPiTemp(vendor, file, parse) == ThermalTier(file, parse);
    } else {
      assert GetPiTemp(vendor, file, parse) == step.result;
    }
  }
}
