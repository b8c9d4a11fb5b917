# RaspiInfo temperature probe and status report, in Dafny

RaspiInfo is a Minecraft Forge mod whose `/sysinfo` command prints the host's
CPU load, CPU temperature and RAM use. This project models the part of
`RaspiInfo.java` with real logic:

- `getPiTemp`: read the temperature from the first line of
  `vcgencmd measure_temp` (`temp=42.8'C`). If the command gives neither a
  reading nor an exception, read `/sys/class/thermal/thermal_zone0/temp`
  (millidegrees). That happens when running it throws `IOException`, when
  there is no line or no `=` in it, or when closing the reader throws after
  a parse. If the file cannot
  be read, return the sentinel -1; text in it that does not parse fails the
  report.
- the decision structure of `getSystemInfo`:
  - used memory is total minus free;
  - a temperature below zero gives the "Unavailable" line;
  - an exception that escapes gives the failure message.

The outside world is passed in as data:

- `PiTemp.VendorOutcome`: what running the command and reading its first line
  produced. This is an `IOException` or a line (`None` for Java's `null`). A
  flag records whether closing the reader threw an `IOException`.
- `PiTemp.FileOutcome`: what reading the thermal-zone file produced, either an
  `IOException` or its text.
- `PiTemp.Parser`: `Double.parseDouble`, as a function returning `None` where
  it throws `NumberFormatException`.
- `SystemInfo.OsReadings`: CPU load, total memory and free memory, as the
  operating-system bean reports them.

Modules:

- `JavaStrings` (`java_strings.dfy`): Java's `split` on one delimiter
  character, `replace(x, "")` and `trim`. `split` and `trim` each have a
  second, independent definition (`Join` and `SecondField`; the index loops
  of `TrimByIndices`) and lemmas that tie the two together. `replace` has one
  definition, pinned down by lemmas on its character counts and on
  concatenation.
- `Decimal` (`decimal.dfy`): a plain decimal grammar. It is one concrete
  parser, used by the worked examples.
- `PiTemp` (`pi_temp.dfy`): `getPiTemp`.
- `SystemInfo` (`system_info.dfy`): `getSystemInfo` and Java `long`
  subtraction.
- `WorkedExamples` (`worked_examples.dfy`): concrete lines and files taken
  through the model.
- `Options` (`options.dfy`): `Option` and `Result`.

Only `IOException` is caught around each tier. So a line such as `temp=` or
`=`, where `split("=")` has no element [1], does not fall through to the
thermal-zone file. Neither does a residue that does not parse. The exception
escapes, and the whole report becomes the failure message. One might expect
these lines to fall through to the thermal-zone file, and used memory to be
clamped at zero; the code does neither, and neither does this model.

## Model

| member | source | states |
|---|---|---|
| JavaStrings.JavaSplit | src/main/java/dev/lemonnik/respinfo/RaspiInfo.java:91 | `split("=")` gives the line itself when it has no `=`. Otherwise no element holds `=`, the last element is not empty, and element [1] exists exactly when some character after the first `=` is not `=`. |
| JavaStrings.FieldsJoin | src/main/java/dev/lemonnik/respinfo/RaspiInfo.java:91 | Gluing the `=`-separated fields back together with `=` gives the original line. |
| JavaStrings.JoinFields | src/main/java/dev/lemonnik/respinfo/RaspiInfo.java:91 | The other direction: a non-empty list of fields without `=`, joined with `=`, cuts back into the same fields (`Fields`, before `split` drops trailing empty fields). |
| JavaStrings.FieldsHaveNoDelimiter | src/main/java/dev/lemonnik/respinfo/RaspiInfo.java:91 | No field produced by splitting holds the delimiter. |
| JavaStrings.DropTrailingEmpty | src/main/java/dev/lemonnik/respinfo/RaspiInfo.java:91 | `split` with limit zero keeps a prefix of the fields: its last kept field is non-empty and every dropped field is empty. |
| JavaStrings.SplitHasSecondElement | src/main/java/dev/lemonnik/respinfo/RaspiInfo.java:91 | For a line containing `=`, element [1] of `split("=")` exists exactly when some character after the first `=` is not `=`, in both directions. So `temp=`, `temp==` and `=` have no element [1]. |
| JavaStrings.SplitSecondElement | src/main/java/dev/lemonnik/respinfo/RaspiInfo.java:91 | When element [1] exists, it is the text between the first and the second `=`, or up to the end of the line. |
| JavaStrings.SecondFieldMiddle | src/main/java/dev/lemonnik/respinfo/RaspiInfo.java:91 | In `a=b=c`, where `a` and `b` contain no `=`, the second field is `b`. |
| JavaStrings.SecondFieldLast | src/main/java/dev/lemonnik/respinfo/RaspiInfo.java:91 | In `a=b`, where `a` and `b` contain no `=`, the second field is `b`. |
| JavaStrings.RemoveAll | src/main/java/dev/lemonnik/respinfo/RaspiInfo.java:91 | `replace(c, "")` leaves no `c`. Every other character survives. A text without `c` comes back unchanged. |
| JavaStrings.RemoveAllCounts | src/main/java/dev/lemonnik/respinfo/RaspiInfo.java:91 | After `replace(c, "")`, every other character occurs exactly as often as before, and `c` not at all. |
| JavaStrings.RemoveAllAppend | src/main/java/dev/lemonnik/respinfo/RaspiInfo.java:91 | Removal distributes over concatenation, so the surviving characters keep their order. |
| JavaStrings.LeadingBlanks | src/main/java/dev/lemonnik/respinfo/RaspiInfo.java:91 | Counts the blanks (characters at or below U+0020) at the start: everything before the count is blank, and the next character is not. |
| JavaStrings.TrailingBlanks | src/main/java/dev/lemonnik/respinfo/RaspiInfo.java:91 | The same at the end of the text. |
| JavaStrings.Trim | src/main/java/dev/lemonnik/respinfo/RaspiInfo.java:98 | `trim` has no blank at either end. It is the text right after the leading blanks, and only blanks follow it. It contains no character the input lacked. |
| JavaStrings.TrimUnique | src/main/java/dev/lemonnik/respinfo/RaspiInfo.java:91 | Blanks, then a core with no blank at either end, then blanks: this trims to exactly that core. |
| JavaStrings.TrimKeepsNonBlank | src/main/java/dev/lemonnik/respinfo/RaspiInfo.java:91 | `trim` removes blanks only: every character above U+0020 in the input is still in the result. |
| JavaStrings.TrimIdempotent | src/main/java/dev/lemonnik/respinfo/RaspiInfo.java:91 | Trimming a trimmed text changes nothing. |
| JavaStrings.TrimByIndices | src/main/java/dev/lemonnik/respinfo/RaspiInfo.java:91 | Java's index loops for `trim` (advance the start, then pull back the end) compute the same text as the reference `Trim`. |
| Decimal.ParseDecimal | src/main/java/dev/lemonnik/respinfo/RaspiInfo.java:92 | The stand-in grammar used by the worked examples in place of `Double.parseDouble`: it accepts only text whose trimmed form consists of digits, points and signs. It rejects some forms Java accepts (see "Left out"). |
| Decimal.NatTextRoundTrip | src/main/java/dev/lemonnik/respinfo/RaspiInfo.java:99 | Printing a whole number in decimal and parsing it back gives the number. |
| Decimal.NegativeNatTextRoundTrip | src/main/java/dev/lemonnik/respinfo/RaspiInfo.java:92 | The same with a leading minus sign gives the negative number. |
| PiTemp.CleanValue | src/main/java/dev/lemonnik/respinfo/RaspiInfo.java:91 | The scrubbed vendor value contains no `'`, `C` or `°`. It has no character at or below U+0020 at either end. Every character in it comes from the input. Every character of the input that is neither a unit mark nor at or below U+0020 occurs in it exactly as often as in the input. |
| PiTemp.CleanValueIdempotent | src/main/java/dev/lemonnik/respinfo/RaspiInfo.java:91 | Scrubbing an already scrubbed value changes nothing. |
| PiTemp.VendorValue | src/main/java/dev/lemonnik/respinfo/RaspiInfo.java:91 | For a line containing `=`: an index error at [1] is thrown exactly when nothing but `=` follows the first `=`. The array then has no element when the line starts with `=` and one element otherwise. Otherwise the value is the scrubbed second field. |
| PiTemp.GetPiTemp | src/main/java/dev/lemonnik/respinfo/RaspiInfo.java:85-104 | If the first line is missing, has no `=`, or the command fails with `IOException`, the result is the thermal-zone tier. A line with no element [1] throws the index error, with the index and array length that the split gives. A residue that does not parse throws a number-format error carrying that residue. A residue that parses is returned if the reader closes cleanly; if closing throws `IOException`, the thermal-zone tier runs instead. In the thermal-zone tier, an unreadable file gives -1 and a parsed value is divided by 1000. |
| PiTemp.VendorTier | src/main/java/dev/lemonnik/respinfo/RaspiInfo.java:86-95 | Without a line holding `=` the first tier decides nothing. Otherwise the index error and the number format error (carrying the residue) are final, a parsed value is the result when the reader closes cleanly, and a close failure hands over to the second tier. A reading is only ever decided when closing succeeded. |
| PiTemp.ThermalTier | src/main/java/dev/lemonnik/respinfo/RaspiInfo.java:97-103 | An unreadable file gives -1. A trimmed text that parses gives its value divided by 1000. A text that does not parse escapes as a number format error carrying the trimmed text. |
| PiTemp.VendorDecisionIgnoresFile | src/main/java/dev/lemonnik/respinfo/RaspiInfo.java:89-99 | Once a line with `=` is read, the thermal-zone file does not affect the result. The one exception is when the value parsed but closing the reader threw `IOException`. |
| PiTemp.VendorEscapeIsFinal | src/main/java/dev/lemonnik/respinfo/RaspiInfo.java:91-95 | Any exception thrown by the first tier is the final result, and it only arises when a line with `=` was read. |
| PiTemp.BothTiersFailGiveSentinel | src/main/java/dev/lemonnik/respinfo/RaspiInfo.java:95-103 | If the first tier falls through and reading the file throws `IOException`, the result is exactly -1. |
| PiTemp.SentinelSources | src/main/java/dev/lemonnik/respinfo/RaspiInfo.java:92-102 | The result is -1 exactly in three cases, in both directions. (1) The first tier falls through and the file cannot be read. The first tier falls through on no line, no `=`, an `IOException`, or a close failure after a parse. (2) A vendor value of -1 is read with a clean close. (3) The first tier falls through and the trimmed file text parses to -1000. |
| SystemInfo.LongSub | src/main/java/dev/lemonnik/respinfo/RaspiInfo.java:61 | Java `long` subtraction is congruent to the exact difference modulo 2^64, and equal to it whenever the difference fits in a `long`. |
| SystemInfo.UsedMemoryExact | src/main/java/dev/lemonnik/respinfo/RaspiInfo.java:59-61 | For non-negative sizes, used memory is total minus free exactly, with no clamping. It is negative exactly when free exceeds total. |
| SystemInfo.GetSystemInfo | src/main/java/dev/lemonnik/respinfo/RaspiInfo.java:53-82 | The report is the failure message exactly when `getPiTemp` throws, and it carries that exception. It is the "Unavailable" variant exactly when the temperature is below zero, and otherwise shows that temperature. CPU load and used/total memory are always the OS readings. |
| SystemInfo.TemperatureDoesNotTouchReadings | src/main/java/dev/lemonnik/respinfo/RaspiInfo.java:68-78 | Two non-failure reports for the same OS readings show identical CPU and memory figures, whichever temperature variant each shows. |
| SystemInfo.SentinelShowsUnavailable | src/main/java/dev/lemonnik/respinfo/RaspiInfo.java:68-73 | When the first tier falls through and the file cannot be read, the report is the "Unavailable" variant with the OS readings. |
| SystemInfo.NegativeReadingShowsUnavailable | src/main/java/dev/lemonnik/respinfo/RaspiInfo.java:68 | A genuine negative reading is also shown as "Unavailable". |
| SystemInfo.VendorEscapeFailsReport | src/main/java/dev/lemonnik/respinfo/RaspiInfo.java:79-81 | A line with `=` and no element [1], or with a residue that does not parse, fails the whole report. |
| SystemInfo.ResidueFailureNamesResidue | src/main/java/dev/lemonnik/respinfo/RaspiInfo.java:92 | The failure report from an unparseable vendor residue carries exactly that residue. |
| SystemInfo.UnparseableFileFailsReport | src/main/java/dev/lemonnik/respinfo/RaspiInfo.java:98-99 | Whenever the first tier falls through (no line, no `=`, an `IOException`, or a close failure after a parse), a thermal-zone file that does not parse fails the whole report with the trimmed text. It does not give the sentinel. |
| WorkedExamples.VendorValueExample | src/main/java/dev/lemonnik/respinfo/RaspiInfo.java:91 | `temp=42.8'C` yields the value `42.8`. |
| WorkedExamples.VendorReadingExample | src/main/java/dev/lemonnik/respinfo/RaspiInfo.java:92 | With that line and a reader that closes cleanly, the temperature is 42.8 whatever the thermal-zone file holds. |
| WorkedExamples.MiddleFieldExample | src/main/java/dev/lemonnik/respinfo/RaspiInfo.java:91 | `a=b=c` yields `b`. |
| WorkedExamples.EmptyValueExample | src/main/java/dev/lemonnik/respinfo/RaspiInfo.java:91 | `temp=` splits into one element, so element [1] throws. |
| WorkedExamples.BareDelimiterExample | src/main/java/dev/lemonnik/respinfo/RaspiInfo.java:91 | `=` splits into no element at all. |
| WorkedExamples.EmptyValueFailsReport | src/main/java/dev/lemonnik/respinfo/RaspiInfo.java:79-81 | With the line `temp=`, the report is the failure message whatever the thermal-zone file holds. |
| WorkedExamples.NonNumericResidueFailsReport | src/main/java/dev/lemonnik/respinfo/RaspiInfo.java:92 | With the line `temp=abc`, the report is the failure message for the residue `abc` whatever the file holds. |
| WorkedExamples.ThermalFileExample | src/main/java/dev/lemonnik/respinfo/RaspiInfo.java:98-99 | A file holding `50000` and a newline reads as 50 degrees. |
| WorkedExamples.ThermalReadingInMillidegrees | src/main/java/dev/lemonnik/respinfo/RaspiInfo.java:97-99 | Any whole number of millidegrees followed by a newline reads as that number divided by 1000. |
| WorkedExamples.NothingReadableExample | src/main/java/dev/lemonnik/respinfo/RaspiInfo.java:58-73 | With 2048 MB total, 1536 MB free and no readable sensor, the report is "Unavailable" with 512 MB used. |

## Left out

- The Forge wiring (constructor, `commonSetup`, `onRegisterCommands`, `sendSuccess`, lines 29-51). It registers the command and delivers the text, and has no behaviour to state.
- `OperatingSystemMXBean` queries, `Runtime.exec`, the process's output stream and `Files.readString` are calls into the platform. Their results are parameters (`OsReadings`, `VendorOutcome`, `FileOutcome`). The process is never waited for or destroyed, and that is not modelled either.
- `Double.parseDouble` is the `Parser` parameter, so every property of `PiTemp` and `SystemInfo` holds for any parser. Readings are exact reals, so a `NaN` reading cannot arise. In Java, `NaN < 0` is false, so a NaN reading would be printed as a temperature.
- `String.format` rounding (`%.1f`, `%.0f`), the ×100 CPU scaling, the division by 1024² into megabytes and the `§` colour codes are floating-point presentation. The report keeps the raw load fraction and byte counts.
- The failure message text. `Failure` carries the exception instead of its `getMessage()` string.
- Exceptions the parsing path does not raise are not modelled: a `SecurityException` from `Runtime.exec`, a failing cast of the OS bean, or an error inside the bean queries. Any of these would also reach the outer `catch (Exception)`.
- Logging (lines 37, 80, 101).
- Decimal.ParseDecimal: this grammar rejects forms `Double.parseDouble` accepts: exponents (`1e3`), `NaN`, `Infinity`, hexadecimal (`0x1p3`) and the `d`/`f` suffixes (`2.5d`). It serves only the worked examples.
- Java strings count UTF-16 code units and a Dafny `char` is a Unicode scalar value, so a character outside the Basic Multilingual Plane is one `char` here and two units in Java. No modelled result depends on this: both halves of a surrogate pair lie above U+0020, and neither is `=`, `'`, `C` or `°`.
