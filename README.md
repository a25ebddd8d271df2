# Batch Decompile — a verified model

Batch Decompile is a Recaf plugin. It decompiles a class, a package or a
whole resource at once, with a timeout for each class. While it runs, it
shows an estimate of the remaining time. At the end it writes the sources
out, as one `.java` file for a single class and as an archive otherwise.

This project models the sequential logic around the plugin's thread pools:

- **Selection** (`selection.dfy`): the plugin's configuration defaults, and
  the three name patterns the context menus build (class, package, all).
  Each pattern is modelled as a datatype case with its own matcher. Every
  pattern matches the class name as a whole.
- **Java text and numbers** (`java_text.dfy`): the pieces of Java the panel
  relies on, written out over unbounded integers. These are truncating `/`
  and `%`, the `(int)` cast of a `long`, `%02d`, `lastIndexOf`,
  `contains`, and the `String.compareTo` order that a `TreeSet` sorts by.
- **UTF-8** (`utf8.dfy`): `getBytes(UTF_8)`, together with a decoder that
  shows the encoding loses nothing.
- **Pure helpers of the panel** (`progress.dfy`): the thread-count clamp,
  the placeholder stubs, the remaining-time estimate, its `HH:MM:SS` text,
  and the colour of a row.
- **Bookkeeping** (`bookkeeping.dfy`): the three shared collections
  (`classSources`, `failedDecompiles`, `decompileTimes`) as one value. It
  includes the events of a class's task (a worker returns, a worker throws
  an `Exception`, a worker is ended by an `Error`, a timeout fires), runs
  of such events in any interleaving, and the invariant they keep.
- **Saving** (`saving.dfy`): the loop that builds the archive entries over
  the map's keys, and what a single-file write leaves on disk.
- **The panel** (`panel.dfy`): the class `DecompilePanel`. Its fields are
  updated in place by one method per event. It also has the submission
  loop over the sorted names, and the save.

Each event is atomic. The inputs that the environment supplies are
parameters of the event:

- the backend's outcome (`Decompiled(text)`, `Threw` for an `Exception`,
  or `ThrewError` for an `Error`)
- the two clock readings
- whether the task was already done when its timer fired
- the configured timeout
- the order in which the map yields its keys
- what the chosen file held before

`unescape`, which stands for `EscapeUtil.unescapeUnicode`, is a function
given to the panel when it is built.

Four behaviours of the code follow from the lines cited and are stated
here outright:

- **No single writer.** The timer checks only `future.isDone()` and then
  writes. A worker that ignores the interrupt still writes afterwards.
  - The late write replaces the placeholder with the real source.
  - The class keeps its failed mark.
  - The class ends up with two durations (`Bookkeeping.LateWorkerAfterTimeout`).
- **The remaining time can go negative.** The remaining count is the
  number of classes minus the number of durations, not minus the number of
  recorded classes. Each late write gives its class a second duration. Once
  every class has a duration, the durations then outnumber the classes and
  the remaining count is negative (`Progress.EtaOvershoot`). With the
  10-second timeout, a one-class batch whose worker returns after 12000 ms
  shows `00:00:-6` (`Bookkeeping.LateWriteGivesNegativeEstimate`).
- **An `Error` is not caught.** The worker catches `Exception` only. A
  worker ended by an `Error` (a `StackOverflowError`, say) records
  nothing. Its timer then finds the task done and records nothing either.
  The class never gets a source, a failed mark or a duration
  (`Bookkeeping.ErrorLeavesClassUnrecorded`). In a one-class batch the map
  stays empty and the save ends in `NoSuchElementException`.
- **The timeout is not clamped.** The configured timeout is used as it
  is; only the settings slider limits it.

## Model

| member | source | states |
|---|---|---|
| Selection.DefaultConfig | src/main/java/me/coley/recaf/plugin/decompile/BatchDecompile.java:37-44 | the defaults are 2 threads, a 10-second timeout and the global decompiler |
| Selection.Matches | src/main/java/me/coley/recaf/plugin/decompile/BatchDecompile.java:89-91 | `name.matches(pattern)` as a whole-name match: a quoted class name equals the name; a quoted package is followed by `/` and a rest without line terminators; `.*` takes any name without line terminators |
| Selection.Select | src/main/java/me/coley/recaf/plugin/decompile/BatchDecompile.java:89-92 | the selection is a subset of the resource's class names and contains every name the pattern matches |
| Selection.SelectAll | src/main/java/me/coley/recaf/plugin/decompile/BatchDecompile.java:85-86 | "Decompile all" takes exactly the names without a line terminator, so every name when none has one |
| Selection.SelectClass | src/main/java/me/coley/recaf/plugin/decompile/BatchDecompile.java:79-80 | the quoted class pattern selects `{name}` when the resource has the class and `{}` otherwise |
| Selection.SelectPackage | src/main/java/me/coley/recaf/plugin/decompile/BatchDecompile.java:73-74 | a name is selected iff it is in the resource, starts with the package name followed by `/`, and its rest has no line terminator |
| Selection.SelectSubPackage | src/main/java/me/coley/recaf/plugin/decompile/BatchDecompile.java:73-74 | classes of sub-packages are selected too, because `.*` spans `/` |
| Selection.SelectPackageExcludes | src/main/java/me/coley/recaf/plugin/decompile/BatchDecompile.java:73-74 | neither the package's own name nor a sibling such as `pkg + "x/…"` is selected |
| JavaText.Below | src/main/java/me/coley/recaf/plugin/decompile/BatchDecompile.java:93 | the `TreeSet` order of names: the first differing character decides, and a proper prefix sorts first |
| JavaText.BelowIrreflexive | src/main/java/me/coley/recaf/plugin/decompile/BatchDecompile.java:93 | no name sorts before itself in the `TreeSet` order |
| JavaText.BelowTransitive | src/main/java/me/coley/recaf/plugin/decompile/BatchDecompile.java:93 | the `TreeSet` order is transitive |
| JavaText.BelowTotal | src/main/java/me/coley/recaf/plugin/decompile/BatchDecompile.java:93 | of two different names, one sorts first |
| JavaText.LeastExists | src/main/java/me/coley/recaf/plugin/decompile/DecompilePanel.java:87 | every non-empty set of names has a least element, which the sorted iteration visits first |
| JavaText.AscendingDistinct | src/main/java/me/coley/recaf/plugin/decompile/BatchDecompile.java:93 | a strictly ascending sequence of names holds no name twice, as the `TreeSet` holds none |
| JavaText.ToInt | src/main/java/me/coley/recaf/plugin/decompile/DecompilePanel.java:81 | the `(int)` cast keeps the value modulo 2^32, lies in the `int` range, and is the identity inside it |
| Progress.ThreadCount | src/main/java/me/coley/recaf/plugin/decompile/DecompilePanel.java:81 | at least one thread; no more than the processors when there is one; the configured count when it lies between them |
| JavaText.LastIndexOf | src/main/java/me/coley/recaf/plugin/decompile/DecompilePanel.java:105 | the result is -1 or a position holding the character, and no later position holds it |
| Progress.SimpleName | src/main/java/me/coley/recaf/plugin/decompile/DecompilePanel.java:105 | `name.substring(name.lastIndexOf('/') + 1)`: the characters after the last `/`, or the whole name |
| Progress.SimpleNameSuffix | src/main/java/me/coley/recaf/plugin/decompile/DecompilePanel.java:105 | the text after the last `/`: a suffix of the name without `/`, preceded by `/` unless it is the whole name |
| Progress.TimeoutStub | src/main/java/me/coley/recaf/plugin/decompile/DecompilePanel.java:105-107 | the timeout placeholder: `public class S {`, a comment "Failed to decompile, took too long to decompile: " with the full name, and `}` |
| Progress.FailureStub | src/main/java/me/coley/recaf/plugin/decompile/DecompilePanel.java:138-140 | the failure placeholder: `public class S {`, a comment "Failed to decompile: " with the full name, and `}` |
| Progress.StubLayout | src/main/java/me/coley/recaf/plugin/decompile/DecompilePanel.java:105-107 | where each part of a stub sits: `public class `, the simple name, ` {`, the comment, the note, the full name and the closing `}` |
| Progress.StubNamesClass | src/main/java/me/coley/recaf/plugin/decompile/DecompilePanel.java:105-107 | both stubs open with `public class` and the simple name, and contain the full name |
| Progress.TimeoutStubSaysTooLong | src/main/java/me/coley/recaf/plugin/decompile/DecompilePanel.java:105-107 | the timeout stub contains "took too long to decompile" |
| Progress.FailureStubSilentOnTimeout | src/main/java/me/coley/recaf/plugin/decompile/DecompilePanel.java:138-140 | the failure stub does not contain "took too long to decompile", unless the class name does |
| Progress.StubsDiffer | src/main/java/me/coley/recaf/plugin/decompile/DecompilePanel.java:138-140 | the failure stub and the timeout stub of one name are different texts |
| Progress.EtaMillis | src/main/java/me/coley/recaf/plugin/decompile/DecompilePanel.java:151-156 | the estimate in milliseconds: none iff no duration is recorded, otherwise the sum of durations times (classes − durations) over the number of durations, cut toward zero |
| Progress.EtaBounds | src/main/java/me/coley/recaf/plugin/decompile/DecompilePanel.java:151-156 | there is no estimate iff no duration is recorded; when the durations are not negative and do not outnumber the classes, the estimate is the mean duration times (classes − durations), rounded down, and so not negative |
| Progress.EtaOvershoot | src/main/java/me/coley/recaf/plugin/decompile/DecompilePanel.java:151-156 | when the durations outnumber the classes, the estimate is the mean duration times the negative remaining count, rounded toward zero, and at most zero |
| Progress.EtaUniform | src/main/java/me/coley/recaf/plugin/decompile/DecompilePanel.java:151-156 | with equal durations `d`, the estimate is `d` times the remaining count |
| JavaText.Quot | src/main/java/me/coley/recaf/plugin/decompile/DecompilePanel.java:157-159 | Java's `/` rounds toward zero: bounds for each sign of the dividend |
| JavaText.Rem | src/main/java/me/coley/recaf/plugin/decompile/DecompilePanel.java:157-159 | Java's `%` satisfies `a == b*q + r`, and the remainder takes the dividend's sign |
| JavaText.DivDiv | src/main/java/me/coley/recaf/plugin/decompile/DecompilePanel.java:157-159 | converting milliseconds to seconds and then to minutes equals converting straight to minutes |
| Progress.HmsFields | src/main/java/me/coley/recaf/plugin/decompile/DecompilePanel.java:157-159 | the hours, the minutes modulo 60 and the seconds modulo 60 of the estimate, with Java's truncating `/` and `%` |
| Progress.HmsFieldsSplit | src/main/java/me/coley/recaf/plugin/decompile/DecompilePanel.java:157-159 | for `eta ≥ 0`: hours ≥ 0, minutes and seconds in [0, 60), and `h·3600000 + m·60000 + s·1000 ≤ eta <` that + 1000 |
| JavaText.FormatD02 | src/main/java/me/coley/recaf/plugin/decompile/DecompilePanel.java:157 | `%02d`: a value from 0 to 9 gets a leading zero, a larger one its digits, a negative one a minus sign and its digits |
| JavaText.FormatD02NonNegative | src/main/java/me/coley/recaf/plugin/decompile/DecompilePanel.java:157 | `%02d` of a value ≥ 0 gives at least two digits, exactly two below 100, and reads back as the value |
| JavaText.FormatD02Negative | src/main/java/me/coley/recaf/plugin/decompile/DecompilePanel.java:157 | `%02d` of a negative value is a minus sign followed by its digits |
| JavaText.ParseDecimalDigits | src/main/java/me/coley/recaf/plugin/decompile/DecompilePanel.java:157 | reading the decimal digits of a number gives the number back |
| Progress.Hms | src/main/java/me/coley/recaf/plugin/decompile/DecompilePanel.java:157-159 | `String.format("%02d:%02d:%02d", h, m, s)` of the three fields |
| Progress.HmsReadsBack | src/main/java/me/coley/recaf/plugin/decompile/DecompilePanel.java:157-159 | for `eta ≥ 0` the text is `H…H:MM:SS`: two-digit minutes and seconds, at least two digits of hours, and each field reads back as its value |
| Progress.EstimatedTimeText | src/main/java/me/coley/recaf/plugin/decompile/DecompilePanel.java:155-160 | no text iff no duration is recorded; otherwise "Estimated remaining time: " followed by the `HH:MM:SS` of the estimate |
| Panel.RefreshedLabel | src/main/java/me/coley/recaf/plugin/decompile/DecompilePanel.java:155-160 | with no duration the label keeps its text; otherwise it shows "Estimated remaining time: " and the `HH:MM:SS` of the estimate |
| Bookkeeping.Succeed | src/main/java/me/coley/recaf/plugin/decompile/DecompilePanel.java:131-133 | a returned source is recorded for the name and exactly one duration is appended; other sources and the failed set are unchanged |
| Bookkeeping.Fail | src/main/java/me/coley/recaf/plugin/decompile/DecompilePanel.java:137-141 | the name joins the failed set, the failure stub is recorded and exactly one duration is appended; nothing else changes |
| Bookkeeping.TimeOut | src/main/java/me/coley/recaf/plugin/decompile/DecompilePanel.java:97-109 | a done task changes nothing; otherwise the name joins the failed set, the timeout stub is recorded and the timeout in seconds is appended |
| Bookkeeping.EmptyConsistent | src/main/java/me/coley/recaf/plugin/decompile/DecompilePanel.java:45-48 | the empty state keeps the invariant (failed ⊆ recorded names, no more sources than durations) |
| Bookkeeping.SucceedConsistent | src/main/java/me/coley/recaf/plugin/decompile/DecompilePanel.java:131-133 | a worker's return keeps the invariant |
| Bookkeeping.FailConsistent | src/main/java/me/coley/recaf/plugin/decompile/DecompilePanel.java:137-141 | a worker's throw keeps the invariant |
| Bookkeeping.TimeOutConsistent | src/main/java/me/coley/recaf/plugin/decompile/DecompilePanel.java:99-108 | a timeout, done or not, keeps the invariant |
| Progress.StatusOf | src/main/java/me/coley/recaf/plugin/decompile/DecompilePanel.java:207-208 | a row is uncoloured when its class has no source, red when its class is in the failed set, and green otherwise |
| Bookkeeping.StatusAfterSucceed | src/main/java/me/coley/recaf/plugin/decompile/DecompilePanel.java:207-208 | after a return the row is green unless the class was already failed, in which case it stays red; other rows keep their colour |
| Bookkeeping.StatusAfterFail | src/main/java/me/coley/recaf/plugin/decompile/DecompilePanel.java:207-208 | after a throw the row is red; other rows keep their colour |
| Bookkeeping.StatusAfterTimeOut | src/main/java/me/coley/recaf/plugin/decompile/DecompilePanel.java:207-208 | after a timeout on an unfinished task the row is red; a done task's row is unchanged; other rows keep their colour |
| Bookkeeping.PendingIffNoSource | src/main/java/me/coley/recaf/plugin/decompile/DecompilePanel.java:207-208 | in a consistent state a row is uncoloured iff its class has no source, and red iff its class is failed |
| Bookkeeping.Step | src/main/java/me/coley/recaf/plugin/decompile/DecompilePanel.java:97-143 | one event: a return records the success, a caught throw the failure, an `Error` nothing, and a timer the timeout transition |
| Bookkeeping.Run | src/main/java/me/coley/recaf/plugin/decompile/DecompilePanel.java:97-143 | a sequence of events applied one after another, in the order they happened |
| Bookkeeping.StepEffect | src/main/java/me/coley/recaf/plugin/decompile/DecompilePanel.java:97-143 | one event adds its name and one duration exactly when it writes, and keeps the invariant |
| Bookkeeping.RunConsistent | src/main/java/me/coley/recaf/plugin/decompile/DecompilePanel.java:97-143 | any interleaving of events keeps the invariant |
| Bookkeeping.StepKeys | src/main/java/me/coley/recaf/plugin/decompile/DecompilePanel.java:97-143 | one event adds its name to the recorded names exactly when it writes |
| Bookkeeping.RunKeys | src/main/java/me/coley/recaf/plugin/decompile/DecompilePanel.java:97-143 | after any interleaving, the recorded names are exactly those named by a writing event |
| Bookkeeping.RunTimes | src/main/java/me/coley/recaf/plugin/decompile/DecompilePanel.java:97-143 | the duration list only grows, by exactly one per writing event |
| Bookkeeping.WritingEventWritten | src/main/java/me/coley/recaf/plugin/decompile/DecompilePanel.java:97-143 | every writing event puts its name among the written names |
| Bookkeeping.WrittenByWritingEvent | src/main/java/me/coley/recaf/plugin/decompile/DecompilePanel.java:97-143 | every written name comes from a writing event of the run |
| Bookkeeping.CompletedRun | src/main/java/me/coley/recaf/plugin/decompile/DecompilePanel.java:97-143 | when every event names a class of the batch, the recorded names are exactly the batch iff every class has a writing event (a return, a caught throw, or a timeout on an unfinished task); then there is one source per class |
| Bookkeeping.ErrorLeavesClassUnrecorded | src/main/java/me/coley/recaf/plugin/decompile/DecompilePanel.java:97-143 | a worker ended by an `Error`, followed by its timer finding the task done, leaves the state empty and the row uncoloured |
| Bookkeeping.LateWorkerAfterTimeout | src/main/java/me/coley/recaf/plugin/decompile/DecompilePanel.java:97-109 | a worker that returns after its timeout replaces the placeholder, and the class stays red with two durations: the timeout in seconds, then the real time |
| Bookkeeping.EtaOfLateWrite | src/main/java/me/coley/recaf/plugin/decompile/DecompilePanel.java:151-156 | one class with durations 10 (the timeout) and 12000 gives the estimate −6005 ms |
| Bookkeeping.FormatOfLateWrite | src/main/java/me/coley/recaf/plugin/decompile/DecompilePanel.java:157 | `%02d` writes 0 as `00` and −6 as `-6` |
| Bookkeeping.HmsFieldsOfLateWrite | src/main/java/me/coley/recaf/plugin/decompile/DecompilePanel.java:157-159 | truncating toward zero, −6005 ms is 0 hours, 0 minutes and −6 seconds |
| Bookkeeping.HmsOfLateWrite | src/main/java/me/coley/recaf/plugin/decompile/DecompilePanel.java:157-159 | an estimate of −6005 ms is shown as `00:00:-6` |
| Bookkeeping.LateWriteGivesNegativeEstimate | src/main/java/me/coley/recaf/plugin/decompile/DecompilePanel.java:150-160 | after a late write in a one-class batch (timeout 10 s, worker done after 12000 ms), the label shows the remaining time `00:00:-6` |
| Utf8.Encode | src/main/java/me/coley/recaf/plugin/decompile/DecompilePanel.java:174-179 | `getBytes(UTF_8)` of a whole text, character by character: one to four bytes per character |
| Utf8.EncodeChar | src/main/java/me/coley/recaf/plugin/decompile/DecompilePanel.java:179 | each character takes one to four bytes, one exactly for ASCII |
| Utf8.DecodeFirstEncodeChar | src/main/java/me/coley/recaf/plugin/decompile/DecompilePanel.java:179 | the decoder reads back the character the encoder wrote, whatever follows it |
| Utf8.DecodeEncode | src/main/java/me/coley/recaf/plugin/decompile/DecompilePanel.java:174 | decoding the UTF-8 bytes of a source gives the source back |
| Utf8.EncodeInjective | src/main/java/me/coley/recaf/plugin/decompile/DecompilePanel.java:179 | two sources with the same bytes are the same source |
| Utf8.EncodeAscii | src/main/java/me/coley/recaf/plugin/decompile/DecompilePanel.java:179 | an ASCII text is encoded one byte per character, each byte equal to the character's code |
| Saving.EntryName | src/main/java/me/coley/recaf/plugin/decompile/DecompilePanel.java:178 | an archive entry is named by the class name followed by `.java` |
| Saving.EntryNameInjective | src/main/java/me/coley/recaf/plugin/decompile/DecompilePanel.java:178 | different classes get different `.java` entry names |
| Saving.ArchiveEntries | src/main/java/me/coley/recaf/plugin/decompile/DecompilePanel.java:177-181 | the loop gives one entry per listed key, in the listed order, named `key + ".java"` and holding the UTF-8 bytes of that key's source |
| Saving.ArchiveShape | src/main/java/me/coley/recaf/plugin/decompile/DecompilePanel.java:176-182 | in any key order, there is exactly one entry per recorded class, named `key + ".java"`; names are distinct; each entry decodes to its class's source |
| Saving.WrittenWithCreate | src/main/java/me/coley/recaf/plugin/decompile/DecompilePanel.java:174 | a `CREATE`-only write puts the new bytes first and keeps the old file's longer tail |
| Saving.CreateKeepsStaleTail | src/main/java/me/coley/recaf/plugin/decompile/DecompilePanel.java:174 | writing the source `x` over a file holding `ABC` leaves `xBC` |
| Saving.CreateReadsBackWhenNotLonger | src/main/java/me/coley/recaf/plugin/decompile/DecompilePanel.java:174 | a `CREATE`-only write decodes to exactly the source when the old file held no more bytes than the new ones |
| Saving.TruncatingWriteReadsBack | src/main/java/me/coley/recaf/plugin/decompile/DecompilePanel.java:174 | with truncation, the file decodes to exactly the source, whatever it held before |
| Panel.DecompilePanel.constructor | src/main/java/me/coley/recaf/plugin/decompile/DecompilePanel.java:44-57 | a new panel has nothing recorded, the label reads "Remaining time: Unknown", and the class count is the size of the selection |
| Panel.DecompilePanel.StartDecompile | src/main/java/me/coley/recaf/plugin/decompile/DecompilePanel.java:79-110 | the pools get the clamped thread count; every selected class is submitted, in ascending order, and no class twice |
| Panel.DecompilePanel.UpdateProgressUI | src/main/java/me/coley/recaf/plugin/decompile/DecompilePanel.java:150-161 | the label becomes the refreshed label of the recorded durations and the class count; nothing else changes |
| Panel.DecompilePanel.Decompile | src/main/java/me/coley/recaf/plugin/decompile/DecompilePanel.java:128-144 | the new state is the success (with the unescaped text) or the failure of the old state, with the elapsed time, and the label is refreshed; after an `Error` the state and the label are unchanged; the invariant holds |
| Panel.DecompilePanel.TimeoutFired | src/main/java/me/coley/recaf/plugin/decompile/DecompilePanel.java:97-109 | the new state is the timeout transition of the old state with the configured timeout; the label is untouched; the invariant holds |
| Panel.DecompilePanel.RowStatus | src/main/java/me/coley/recaf/plugin/decompile/DecompilePanel.java:207-208 | a row is uncoloured iff its class has no source, red iff its class is failed, and green otherwise |
| Panel.DecompilePanel.SaveSources | src/main/java/me/coley/recaf/plugin/decompile/DecompilePanel.java:168-188 | no destination, nothing saved; one class with an empty map fails with no such element; one class, the file is the `CREATE`-only write of the first source's UTF-8 bytes: it starts with them, keeps a longer old file's tail, and decodes to the source when the old file was no longer; otherwise an archive with one distinct `.java` entry per recorded class, in key order |

## Left out

- The thread pool, the scheduled cancel service, `future.cancel(true)`, `shutdown`, `awaitTermination` and the interrupt path. Concurrency is modelled as events that each apply atomically, in any interleaving.
- JavaFX: `Platform.runLater`, the list view, the progress bar, the colours' RGB scaling, the window, the file chooser and the settings sliders. They are UI. The label update is applied at once, not later on the UI thread.
- The decompiler backends and the choice between the preferred and the global one (`createDecompiler`), including the FernFlower re-creation. They are foreign calls, so a worker's outcome is a parameter.
- `EscapeUtil.unescapeUnicode` is a function given to the panel, not modelled.
- Progress.EtaMillis: the mean is taken exactly and then cut toward zero. The `double` average and its rounding are not modelled, nor is `long` overflow of the sum.
- Java's `long` durations and timeout are unbounded integers here. Only the `(int)` cast of the thread count is written out.
- JavaText.FormatD02: writes the digits of a locale whose zero digit is `0`. `String.format` uses the default locale, and the localised digits of another zero digit (Thai or Persian digits, say) are not modelled; `Progress.Hms` and `Progress.HmsReadsBack` inherit this.
- JavaText.Below: compares characters as code points, while `String.compareTo` compares UTF-16 units. The two orders differ only between characters on both sides of the surrogate range.
- Utf8.Encode: covers strings of Unicode scalar values. The replacement of unpaired surrogates by `?` is not modelled.
- The regular-expression engine: only the three pattern shapes the menus build are modelled, each with its own matcher.
- Zip streams and file I/O: the save produces the bytes of the single file, or the list of entries, in a key order that is a parameter. Write errors other than the empty map are not modelled, nor is the closing of the window.
- Plugin registration, version and description strings, logging and alerts.

## Findings

| source | as written | input that shows it | evidently intended | confidence | as-written member | corrected member |
|---|---|---|---|---|---|---|
| src/main/java/me/coley/recaf/plugin/decompile/DecompilePanel.java:174 | `Files.write(path, bytes, StandardOpenOption.CREATE)` opens the file without `TRUNCATE_EXISTING`, so a longer existing file keeps its tail | saving the one-class source `x` over a file that holds `ABC` leaves `xBC` | the file holds exactly the new source (default options, or `CREATE` with `TRUNCATE_EXISTING`) | high on the Java documentation's description of the options; not executed | Saving.CreateKeepsStaleTail | Saving.TruncatingWriteReadsBack |

`Panel.DecompilePanel.SaveSources` writes the single file as the code
does, with `Saving.WrittenWithCreate`. The corrected write is
`Saving.WrittenTruncating`, and `Saving.TruncatingWriteReadsBack` proves
that the file then holds exactly the source.
