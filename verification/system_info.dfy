/**
  The decision structure of `getSystemInfo` (RaspiInfo.java, lines 53-82):
  used memory as total minus free, the temperature from `getPiTemp`, the
  "Unavailable" variant for a temperature below zero, and the failure report
  for an exception that escapes. The report is kept as data; turning it into
  the coloured status line is presentation.
*/
module SystemInfo {
  import opened Options
  import opened JavaStrings
  import opened PiTemp

  const LongMin: int := -0x8000_0000_0000_0000
  const LongMax: int := 0x7FFF_FFFF_FFFF_FFFF
  const LongModulus: int := 0x1_0000_0000_0000_0000

  /** Java's 64-bit `long`. */
  type Long = x: int | LongMin <= x <= LongMax

  /** Java `long` subtraction, which wraps around modulo 2^64. */
  function LongSub(a: Long, b: Long): (r: Long)
    ensures (r - (a - b)) % LongModulus == 0
    ensures LongMin <= a - b <= LongMax ==> r == a - b
  {
    var d := a - b;
    if d > LongMax then d - LongModulus
    else if d < LongMin then d + LongModulus
    else d
  }

  /**
    For the non-negative sizes the operating system reports, the used
    memory is total minus free exactly, with no clamping: it is negative
    exactly when more is free than there is in total.
  */
  lemma UsedMemoryExact(total: Long, free: Long)
    requires 0 <= total && 0 <= free
    ensures LongSub(total, free) == total - free
    ensures LongSub(total, free) < 0 <==> free > total
  {
  }

  /** What the operating-system bean reports: CPU load fraction and memory sizes in bytes. */
  datatype OsReadings = OsReadings(cpuLoad: real, totalMem: Long, freeMem: Long)

  /**
    The three shapes of the status line. CPU load and memory are the raw
    figures; the line scales them to a percentage and to megabytes.
  */
  datatype Report =
    | WithTemp(cpuLoad: real, celsius: real, usedMem: Long, totalMem: Long)
    | TempUnavailable(cpuLoad: real, usedMem: Long, totalMem: Long)
    | Failure(cause: Escape)

  /** The CPU and memory figures the report should show for `os`. */
  predicate ShowsReadings(r: Report, os: OsReadings)
    requires !r.Failure?
  {
    r.cpuLoad == os.cpuLoad && r.usedMem == LongSub(os.totalMem, os.freeMem) && r.totalMem == os.totalMem
  }

  /** `getSystemInfo`. */
  function GetSystemInfo(os: OsReadings, vendor: VendorOutcome, file: FileOutcome, parse: Parser): (r: Report)
    ensures r.Failure? <==> GetPiTemp(vendor, file, parse).Thrown?
    ensures r.Failure? ==> r.cause == GetPiTemp(vendor, file, parse).cause
    ensures r.TempUnavailable? <==> GetPiTemp(vendor, file, parse).Reading? && GetPiTemp(vendor, file, parse).celsius < 0.0
    ensures r.WithTemp? ==> r.celsius == GetPiTemp(vendor, file, parse).celsius && r.celsius >= 0.0
    ensures !r.Failure? ==> ShowsReadings(r, os)
  {
    var used := LongSub(os.totalMem, os.freeMem);
    match GetPiTemp(vendor, file, parse)
    case Thrown(e) => Failure(e)
    case Reading(t) =>
      if t < 0.0 then TempUnavailable(os.cpuLoad, used, os.totalMem)
      else WithTemp(os.cpuLoad, t, used, os.totalMem)
  }

  /**
    The temperature decides only which variant is shown: any two reports for
    the same operating-system readings that are not failures show the same
    CPU and memory figures.
  */
  lemma TemperatureDoesNotTouchReadings(os: OsReadings, parse: Parser,
                                        vendor1: VendorOutcome, file1: FileOutcome,
                                        vendor2: VendorOutcome, file2: FileOutcome)
    ensures var r1, r2 := GetSystemInfo(os, vendor1, file1, parse), GetSystemInfo(os, vendor2, file2, parse);
      !r1.Failure? && !r2.Failure?
      ==> r1.cpuLoad == r2.cpuLoad && r1.usedMem == r2.usedMem && r1.totalMem == r2.totalMem
  {
  }

  /**
    When the first tier falls through and the file cannot be read, the report
    is the "Unavailable" variant.
  */
  lemma SentinelShowsUnavailable(os: OsReadings, vendor: VendorOutcome, parse: Parser)
    requires VendorTier(vendor, parse) == FallThrough
    ensures GetSystemInfo(os, vendor, FileIOError, parse)
         == TempUnavailable(os.cpuLoad, LongSub(os.totalMem, os.freeMem), os.totalMem)
  {
    BothTiersFailGiveSentinel(vendor, parse);
  }

  /** A genuine reading below zero is shown as "Unavailable" too. */
  lemma NegativeReadingShowsUnavailable(os: OsReadings, vendor: VendorOutcome, file: FileOutcome, parse: Parser)
    ensures GetPiTemp(vendor, file, parse).Reading? && GetPiTemp(vendor, file, parse).celsius < 0.0
      ==> GetSystemInfo(os, vendor, file, parse).TempUnavailable?
  {
  }

  /**
    A line with `=` but nothing after it, or with a residue that does not
    parse, never reaches the thermal-zone file: the whole report becomes the
    failure message, whatever the file holds.
  */
  lemma VendorEscapeFailsReport(os: OsReadings, vendor: VendorOutcome, file: FileOutcome, parse: Parser)
    requires TriesVendor(vendor)
    requires !HasTextAfterDelimiter(vendor.line.value, Delimiter)
          || parse(CleanValue(SecondField(vendor.line.value, Delimiter))).None?
    ensures GetSystemInfo(os, vendor, file, parse).Failure?
  {
  }

  /** The failure carries the residue that the parser rejected. */
  lemma ResidueFailureNamesResidue(os: OsReadings, vendor: VendorOutcome, file: FileOutcome, parse: Parser)
    requires TriesVendor(vendor)
    ensures var v := VendorValue(vendor.line.value);
      v.Ok? && parse(v.value).None? ==> GetSystemInfo(os, vendor, file, parse) == Failure(NumberFormat(v.value))
  {
  }

  /**
    A thermal-zone file that does not parse also fails the whole report,
    whichever way the first tier fell through.
  */
  lemma UnparseableFileFailsReport(os: OsReadings, vendor: VendorOutcome, content: string, parse: Parser)
    requires VendorTier(vendor, parse) == FallThrough
    requires parse(Trim(content)).None?
    ensures GetSystemInfo(os, vendor, FileText(content), parse) == Failure(NumberFormat(Trim(content)))
  {
  }
}
