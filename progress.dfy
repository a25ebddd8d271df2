/**
 * The expression-only parts of the decompile panel: how many worker threads
 * a batch gets, the placeholder source recorded for a class that failed or
 * timed out, the remaining-time estimate and its `HH:MM:SS` text, and the
 * colour state of a row of the class list.
 */
module Progress {
  import opened JavaText
  import opened Wrappers

  // ---------------------------------------------------------------------
  // Worker threads
  // ---------------------------------------------------------------------

  /**
   * `max(1, min((int) minimumThreads, availableProcessors))`: at least one
   * thread, never more than the processors, and the configured count when
   * that already lies between the two.
   */
  function ThreadCount(minimumThreads: int, processors: int): (n: int)
    ensures n >= 1
    ensures processors >= 1 ==> n <= processors
    ensures 1 <= ToInt(minimumThreads) <= processors ==> n == ToInt(minimumThreads)
    ensures n <= Max(1, ToInt(minimumThreads))
  {
    Max(1, Min(ToInt(minimumThreads), processors))
  }

  // ---------------------------------------------------------------------
  // Placeholder sources
  // ---------------------------------------------------------------------

  /** `name.substring(name.lastIndexOf('/') + 1)`. */
  function SimpleName(name: string): string
  {
    name[LastIndexOf(name, '/') + 1..]
  }

  /**
   * The simple name is the part of the name after its last `/`, or the
   * whole name when it has none.
   */
  lemma SimpleNameSuffix(name: string)
    ensures var s := SimpleName(name);
      && (forall i :: 0 <= i < |s| ==> s[i] != '/')
      && |s| <= |name| && s == name[|name| - |s|..]
      && (|s| < |name| ==> name[|name| - |s| - 1] == '/')
  {
    var r := LastIndexOf(name, '/');
    var s := name[r + 1..];
    assert SimpleName(name) == s;
    assert |name| - |s| == r + 1;
    forall i | 0 <= i < |s|
      ensures s[i] != '/'
    {
      assert s[i] == name[r + 1 + i];
    }
    if |s| < |name| {
      assert name[r] == '/';
    }
  }

  /** The words that tell a timed-out class apart. */
  const TOO_LONG: string := "took too long to decompile"
  const FAILED: string := "Failed to decompile"
  const TIMEOUT_NOTE: string := FAILED + ", " + TOO_LONG + ": "
  const FAILURE_NOTE: string := FAILED + ": "

  /** A class declaration named `simple` whose only content is a comment: `note`, then the full name. */
  function StubText(simple: string, note: string, name: string): string
  {
    "public class " + simple + " {\n\t// " + note + name + "\n}"
  }

  /** A class declaration named after the simple name, whose only content is a comment ending in the full name. */
  function Stub(name: string, note: string): string
  {
    StubText(SimpleName(name), note, name)
  }

  /** The source recorded for a class whose decompilation was cut off by the timeout. */
  function TimeoutStub(name: string): string { Stub(name, TIMEOUT_NOTE) }

  /** The source recorded for a class whose decompiler threw. */
  function FailureStub(name: string): string { Stub(name, FAILURE_NOTE) }

  /** The positions of the parts of a stub text. */
  lemma StubTextLayout(s: string, note: string, name: string)
    ensures var f := StubText(s, note, name);
      && |f| == 22 + |s| + |note| + |name|
      && f[..13] == "public class "
      && f[13..13 + |s|] == s
      && f[13 + |s|..20 + |s|] == " {\n\t// "
      && f[20 + |s|..20 + |s| + |note|] == note
      && f[20 + |s| + |note|..20 + |s| + |note| + |name|] == name
      && f[20 + |s| + |note| + |name|..] == "\n}"
  {
    Layout6("public class ", s, " {\n\t// ", note, name, "\n}");
  }

  /** The positions of the parts of a stub. */
  lemma StubLayout(name: string, note: string)
    ensures var f, s := Stub(name, note), SimpleName(name);
      && |f| == 22 + |s| + |note| + |name|
      && f[..13] == "public class "
      && f[13..13 + |s|] == s
      && f[13 + |s|..20 + |s|] == " {\n\t// "
      && f[20 + |s|..20 + |s| + |note|] == note
      && f[20 + |s| + |note|..20 + |s| + |note| + |name|] == name
      && f[20 + |s| + |note| + |name|..] == "\n}"
  {
    StubTextLayout(SimpleName(name), note, name);
  }

  /** Both stubs declare `public class` with the simple name and carry the full name in their comment. */
  lemma StubNamesClass(name: string, timedOut: bool)
    ensures var f := if timedOut then TimeoutStub(name) else FailureStub(name);
      && f[..13 + |SimpleName(name)|] == "public class " + SimpleName(name)
      && Contains(f, name)
  {
    var note := if timedOut then TIMEOUT_NOTE else FAILURE_NOTE;
    var f, s := Stub(name, note), SimpleName(name);
    StubLayout(name, note);
    assert f[..13 + |s|] == f[..13] + f[13..13 + |s|];
    assert OccursAt(name, f, 20 + |s| + |note|);
  }

  /** The lengths and the telling characters of the two notes. */
  lemma TimeoutNoteChars()
    ensures |FAILED| == 19 && |TOO_LONG| == 26
    ensures |TIMEOUT_NOTE| == 49 && TIMEOUT_NOTE[19] == ',' && TIMEOUT_NOTE[21..47] == TOO_LONG
  {
  }

  /** The timeout stub says that the class took too long. */
  lemma TimeoutStubSaysTooLong(name: string)
    ensures Contains(TimeoutStub(name), TOO_LONG)
  {
    var f, s := TimeoutStub(name), SimpleName(name);
    StubLayout(name, TIMEOUT_NOTE);
    TimeoutNoteChars();
    var start := 20 + |s|;
    assert f[start..start + 49] == TIMEOUT_NOTE;
    assert f[start + 21..start + 47] == f[start..start + 49][21..47];
    assert OccursAt(TOO_LONG, f, start + 21);
  }

  /**
   * A phrase of 26 characters that begins with `t`, ends with `e` and holds
   * no `{`, `:` or line break: it cannot overlap the fixed parts of a
   * failure stub.
   */
  ghost predicate FitsBetweenMarkers(p: string)
  {
    && |p| == 26 && p[0] == 't' && p[25] == 'e'
    && forall k :: 0 <= k < 26 ==> p[k] != '{' && p[k] != ':' && p[k] != '\n'
  }

  lemma TooLongChars()
    ensures FitsBetweenMarkers(TOO_LONG)
  {
  }

  lemma FailureNoteChars()
    ensures |FAILURE_NOTE| == 21 && FAILURE_NOTE[19] == ':' && FAILURE_NOTE[20] == ' '
  {
  }

  /**
   * How a text laid out like a failure stub looks around the simple name
   * `s` and the full name: no `t` in its first 13 characters, then `s`,
   * ` {`, a note ending in `: `, the name and a line break.
   */
  ghost predicate FailureShape(f: string, s: string, name: string)
  {
    var L, N := |s|, |name|;
    && |f| == 43 + L + N
    && (forall k :: 0 <= k < 13 ==> f[k] != 't')
    && f[13..13 + L] == s
    && f[13 + L] == ' ' && f[14 + L] == '{' && f[39 + L] == ':' && f[40 + L] == ' '
    && f[41 + L..41 + L + N] == name
    && f[41 + L + N] == '\n'
  }

  /** A stub text whose note has the failure note's length and ending has that shape. */
  lemma FailureTextChars(s: string, note: string, name: string)
    requires |note| == 21 && note[19] == ':' && note[20] == ' '
    ensures FailureShape(StubText(s, note, name), s, name)
  {
    var f := StubText(s, note, name);
    var L, N := |s|, |name|;
    StubTextLayout(s, note, name);
    var head := "public class ";
    assert forall k :: 0 <= k < 13 ==> head[k] != 't';
    forall k | 0 <= k < 13
      ensures f[k] != 't'
    {
      SliceChar(f, 0, head, k);
    }
    SliceChar(f, 13 + L, " {\n\t// ", 0);
    SliceChar(f, 13 + L, " {\n\t// ", 1);
    SliceChar(f, 20 + L, note, 19);
    SliceChar(f, 20 + L, note, 20);
    SliceChar(f, 41 + L + N, "\n}", 0);
  }

  /** The failure stub has that shape. */
  lemma FailureStubChars(name: string)
    ensures FailureShape(FailureStub(name), SimpleName(name), name)
  {
    FailureNoteChars();
    FailureTextChars(SimpleName(name), FAILURE_NOTE, name);
  }

  /** No occurrence of such a phrase starts in the declaration part of a failure-shaped text. */
  lemma NoPhraseInDeclaration(p: string, f: string, s: string, name: string, i: int)
    requires FitsBetweenMarkers(p) && !Contains(name, p)
    requires FailureShape(f, s, name) && |s| <= |name| && s == name[|name| - |s|..]
    requires i <= 40 + |s|
    ensures !OccursAt(p, f, i)
  {
    var L, N := |s|, |name|;
    if OccursAt(p, f, i) {
      if i < 13 {
        OccursAtChar(p, f, i, i);
      } else if i + 26 <= 13 + L {
        OccursInSlice(p, f, 13, s, i);
        OccursFromSlice(p, name, N - L, s, i - 13);
      } else if i <= 13 + L && i + 26 > 14 + L {
        OccursAtChar(p, f, i, 14 + L);
      } else if i < 13 + L {
        OccursAtChar(p, f, i, 13 + L);
      } else if i <= 39 + L {
        OccursAtChar(p, f, i, 39 + L);
      } else {
        OccursAtChar(p, f, i, i);
      }
    }
  }

  /** No occurrence of such a phrase starts in the name part of a failure-shaped text. */
  lemma NoPhraseInName(p: string, f: string, s: string, name: string, i: int)
    requires FitsBetweenMarkers(p) && !Contains(name, p)
    requires FailureShape(f, s, name)
    requires i > 40 + |s|
    ensures !OccursAt(p, f, i)
  {
    var L, N := |s|, |name|;
    if OccursAt(p, f, i) {
      if i + 26 <= 41 + L + N {
        OccursInSlice(p, f, 41 + L, name, i);
      } else {
        OccursAtChar(p, f, i, 41 + L + N);
      }
    }
  }

  /**
   * The failure stub does not say that the class took too long, unless the
   * class name itself contains those words.
   */
  lemma FailureStubSilentOnTimeout(name: string)
    requires !Contains(name, TOO_LONG)
    ensures !Contains(FailureStub(name), TOO_LONG)
  {
    var f, s := FailureStub(name), SimpleName(name);
    FailureStubChars(name);
    SimpleNameSuffix(name);
    TooLongChars();
    forall i | 0 <= i <= |f|
      ensures !OccursAt(TOO_LONG, f, i)
    {
      if i <= 40 + |s| {
        NoPhraseInDeclaration(TOO_LONG, f, s, name, i);
      } else {
        NoPhraseInName(TOO_LONG, f, s, name, i);
      }
    }
  }

  /** The two stubs of one name differ: the timeout's note goes on with a comma where the failure's has a colon. */
  lemma StubsDiffer(name: string)
    ensures TimeoutStub(name) != FailureStub(name)
  {
    var s := SimpleName(name);
    TimeoutNoteChars();
    FailureNoteChars();
    StubLayout(name, TIMEOUT_NOTE);
    SliceChar(TimeoutStub(name), 20 + |s|, TIMEOUT_NOTE, 19);
    StubLayout(name, FAILURE_NOTE);
    SliceChar(FailureStub(name), 20 + |s|, FAILURE_NOTE, 19);
  }

  // ---------------------------------------------------------------------
  // Remaining-time estimate
  // ---------------------------------------------------------------------

  function Sum(xs: seq<int>): int
    decreases |xs|
  {
    if xs == [] then 0 else Sum(xs[..|xs| - 1]) + xs[|xs| - 1]
  }

  lemma {:induction false} SumNonNegative(xs: seq<int>)
    requires forall i :: 0 <= i < |xs| ==> xs[i] >= 0
    ensures Sum(xs) >= 0
    decreases |xs|
  {
    if xs != [] {
      SumNonNegative(xs[..|xs| - 1]);
    }
  }

  lemma {:induction false} SumUniform(xs: seq<int>, d: int)
    requires forall i :: 0 <= i < |xs| ==> xs[i] == d
    ensures Sum(xs) == d * |xs|
    decreases |xs|
  {
    if xs != [] {
      SumUniform(xs[..|xs| - 1], d);
    }
  }

  /**
   * The estimate in milliseconds: none until a duration is recorded, then
   * the mean recorded duration times the number of classes without a
   * recorded duration, cut toward zero as the `(long)` cast does. The mean
   * is taken exactly rather than as a `double`.
   */
  function EtaMillis(decompileTimes: seq<int>, classCount: int): (r: Option<int>)
    ensures r.None? <==> decompileTimes == []
  {
    if decompileTimes == [] then None
    else Some(Quot(Sum(decompileTimes) * (classCount - |decompileTimes|), |decompileTimes|))
  }

  /**
   * The estimate exists exactly when some duration is recorded; with no more
   * durations than classes and none negative it is the mean times the
   * remaining count, rounded down, so it is never negative.
   */
  lemma EtaBounds(decompileTimes: seq<int>, classCount: int)
    ensures EtaMillis(decompileTimes, classCount).None? <==> decompileTimes == []
    ensures decompileTimes != [] && |decompileTimes| <= classCount &&
            (forall i :: 0 <= i < |decompileTimes| ==> decompileTimes[i] >= 0) ==>
      var eta, n, remaining := EtaMillis(decompileTimes, classCount).value, |decompileTimes|, classCount - |decompileTimes|;
      && eta >= 0
      && eta * n <= Sum(decompileTimes) * remaining < eta * n + n
  {
    if decompileTimes != [] && |decompileTimes| <= classCount &&
       (forall i :: 0 <= i < |decompileTimes| ==> decompileTimes[i] >= 0) {
      SumNonNegative(decompileTimes);
      var n := |decompileTimes|;
      var remaining := classCount - n;
      assert Sum(decompileTimes) * remaining >= 0;
    }
  }

  /**
   * With more durations than classes the remaining count is negative: the
   * estimate is the mean times that count rounded toward zero, so it is at
   * most zero.
   */
  lemma EtaOvershoot(decompileTimes: seq<int>, classCount: int)
    requires decompileTimes != [] && |decompileTimes| > classCount
    requires forall i :: 0 <= i < |decompileTimes| ==> decompileTimes[i] >= 0
    ensures var eta, n, remaining := EtaMillis(decompileTimes, classCount).value, |decompileTimes|, classCount - |decompileTimes|;
      && eta <= 0
      && eta * n - n < Sum(decompileTimes) * remaining <= eta * n
  {
    SumNonNegative(decompileTimes);
    var sum, n, remaining := Sum(decompileTimes), |decompileTimes|, classCount - |decompileTimes|;
    MulMonotone(-remaining, 0, sum);
    var product := sum * remaining;
    assert product <= 0;
    if product == 0 {
      assert Quot(product, n) == 0;
    }
  }

  /** When every recorded duration is the same, the estimate is that duration per remaining class. */
  lemma EtaUniform(decompileTimes: seq<int>, classCount: int, d: int)
    requires decompileTimes != []
    requires forall i :: 0 <= i < |decompileTimes| ==> decompileTimes[i] == d
    ensures EtaMillis(decompileTimes, classCount) == Some(d * (classCount - |decompileTimes|))
  {
    var n := |decompileTimes|;
    var remaining := classCount - n;
    SumUniform(decompileTimes, d);
    assert Sum(decompileTimes) * remaining == n * (d * remaining);
    var a := n * (d * remaining);
    if a >= 0 {
      DivUnique(a, n, d * remaining, 0);
    } else {
      DivUnique(-a, n, -(d * remaining), 0);
    }
  }

  /**
   * `TimeUnit.MILLISECONDS.toHours(eta)`, `toMinutes(eta) % 60` and
   * `toSeconds(eta) % 60`, with Java's truncating operators.
   */
  function HmsFields(eta: int): (int, int, int)
  {
    (Quot(eta, 3_600_000), Rem(Quot(eta, 60_000), 60), Rem(Quot(eta, 1_000), 60))
  }

  /**
   * For a non-negative estimate the minutes and seconds lie in [0, 60), the
   * hours are unbounded, and together they name the whole second the
   * estimate falls in.
   */
  lemma HmsFieldsSplit(eta: int)
    requires eta >= 0
    ensures var (h, m, s) := HmsFields(eta);
      && h >= 0 && 0 <= m < 60 && 0 <= s < 60
      && h * 3_600_000 + m * 60_000 + s * 1_000 <= eta < h * 3_600_000 + m * 60_000 + s * 1_000 + 1_000
  {
    var (h, m, s) := HmsFields(eta);
    var secs, mins := eta / 1_000, eta / 60_000;
    QuotRemNonNegative(eta, 3_600_000);
    QuotRemNonNegative(eta, 60_000);
    QuotRemNonNegative(eta, 1_000);
    QuotRemNonNegative(mins, 60);
    QuotRemNonNegative(secs, 60);
    DivDiv(eta, 1_000, 60);
    DivDiv(eta, 60_000, 60);
    assert h == mins / 60 && m == mins % 60 && s == secs % 60;
    assert mins == 60 * h + m;
    assert secs == 60 * mins + s;
    assert h * 3_600_000 + m * 60_000 + s * 1_000 == 1_000 * secs;
  }

  /** `String.format("%02d:%02d:%02d", h, m, s)`. */
  function Hms(eta: int): string
  {
    var (h, m, s) := HmsFields(eta);
    FormatD02(h) + ":" + FormatD02(m) + ":" + FormatD02(s)
  }

  /**
   * For a non-negative estimate the text ends in `:MM:SS` with exactly two
   * digits each, is preceded by at least two digits of hours, and reading
   * the three fields back gives the split of `HmsFieldsSplit`.
   */
  lemma HmsReadsBack(eta: int)
    requires eta >= 0
    ensures var t := Hms(eta); var (h, m, s) := HmsFields(eta); var n := |t|;
      && n >= 8 && t[n - 6] == ':' && t[n - 3] == ':'
      && IsDigits(t[..n - 6]) && IsDigits(t[n - 5..n - 3]) && IsDigits(t[n - 2..])
      && ParseDecimal(t[..n - 6]) == h && ParseDecimal(t[n - 5..n - 3]) == m && ParseDecimal(t[n - 2..]) == s
  {
    var t := Hms(eta);
    var (h, m, s) := HmsFields(eta);
    HmsFieldsSplit(eta);
    FormatD02NonNegative(h);
    FormatD02NonNegative(m);
    FormatD02NonNegative(s);
    var hh, mm, ss := FormatD02(h), FormatD02(m), FormatD02(s);
    var n := |t|;
    assert t == hh + ":" + mm + ":" + ss;
    assert t[..n - 6] == hh;
    assert t[n - 5..n - 3] == mm;
    assert t[n - 2..] == ss;
  }

  const UNKNOWN_TIME_TEXT: string := "Remaining time: Unknown"

  /** The text the remaining-time label gets after a worker finishes, if there is an estimate. */
  function EstimatedTimeText(decompileTimes: seq<int>, classCount: int): (r: Option<string>)
    ensures r.None? <==> decompileTimes == []
    ensures r.Some? ==> |r.value| >= 26 && r.value[..26] == "Estimated remaining time: "
  {
    match EtaMillis(decompileTimes, classCount)
    case None => None
    case Some(eta) => Some("Estimated remaining time: " + Hms(eta))
  }

  // ---------------------------------------------------------------------
  // Row colour in the class list
  // ---------------------------------------------------------------------

  /** No colour, red, or green. */
  datatype Status = Pending | Failed | Succeeded

  /** A row is coloured once its class has a source: red if it is among the failed ones, green otherwise. */
  function StatusOf(classSources: map<string, string>, failedDecompiles: set<string>, item: string): Status
  {
    if item !in classSources then Pending
    else if item in failedDecompiles then Failed
    else Succeeded
  }
}
