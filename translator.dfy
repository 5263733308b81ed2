/**
 * The deterministic logic of tests/translator.spec.js: text normalization,
 * the choice of the best Sinhala candidate in the output panel, the
 * UI-test naming convention, the numbering of runnable cases, and the
 * Pass/Fail bookkeeping with its append-only list of result records.
 * The browser itself is represented by the texts it shows.
 */
module TranslatorSpec {
  import opened JsString
  import opened Wrappers
  import opened Seqs
  import opened ReadExcel

  /** `String.prototype.normalize("NFC")`. Unicode normalization depends on
      the Unicode data tables, so the model takes it as a parameter. */
  type Nfc = string -> string

  // ---------------------------------------------------------------------
  // normalizeText (lines 13-18)

  /** `s.replace(/\r\n/g, "\n")`: scanning left to right, each CR LF pair
      becomes a single LF; every other character is copied. */
  function ReplaceCrlf(s: string): (r: string)
    ensures |r| <= |s|
    ensures s == [] ==> r == []
  {
    if s == [] then []
    else if |s| >= 2 && s[0] == '\r' && s[1] == '\n' then "\n" + ReplaceCrlf(s[2..])
    else [s[0]] + ReplaceCrlf(s[1..])
  }

  /** Reference definition: keep every character except a CR that is
      directly followed by an LF. */
  function DropCrBeforeLf(s: string): string {
    if s == [] then []
    else (if |s| >= 2 && s[0] == '\r' && s[1] == '\n' then [] else [s[0]]) + DropCrBeforeLf(s[1..])
  }

  /** The non-overlapping left-to-right replacement deletes exactly the CRs
      that stand before an LF and keeps every other character in order. */
  lemma {:induction false} ReplaceCrlfDropsCr(s: string)
    ensures ReplaceCrlf(s) == DropCrBeforeLf(s)
    decreases |s|
  {
    if s == [] {
    } else if |s| >= 2 && s[0] == '\r' && s[1] == '\n' {
      ReplaceCrlfDropsCr(s[2..]);
      assert s[1..][1..] == s[2..];
      assert DropCrBeforeLf(s[1..]) == "\n" + DropCrBeforeLf(s[2..]);
    } else {
      ReplaceCrlfDropsCr(s[1..]);
    }
  }

  /** A string without any CR is left as it is. */
  lemma {:induction false} ReplaceCrlfKeepsCrFree(s: string)
    requires forall i | 0 <= i < |s| :: s[i] != '\r'
    ensures ReplaceCrlf(s) == s
    decreases |s|
  {
    if s != [] {
      ReplaceCrlfKeepsCrFree(s[1..]);
    }
  }

  /** The replacement is not idempotent: a CR before a CR LF survives one
      pass and forms a new CR LF pair. */
  lemma ReplaceCrlfNotIdempotent()
    ensures ReplaceCrlf("\r\r\n") == "\r\n"
    ensures ReplaceCrlf(ReplaceCrlf("\r\r\n")) == "\n"
  {
    assert "\r\r\n"[1..] == "\r\n";
    assert "\r\n"[2..] == "";
  }

  /** `normalizeText` up to the NFC step: line endings unified, then trimmed. */
  function PrepareText(s: string): (r: string)
    ensures NoEdgeWhiteSpace(r)
    ensures |r| <= |s|
    ensures s == [] ==> r == []
  {
    Trim(ReplaceCrlf(s))
  }

  /** `normalizeText`: line endings unified, trimmed, NFC-normalized. */
  function NormalizeText(nfc: Nfc, s: string): string {
    nfc(PrepareText(s))
  }

  /** The empty string normalizes to the empty string when NFC maps it to itself. */
  lemma NormalizeTextEmpty(nfc: Nfc)
    requires nfc("") == ""
    ensures NormalizeText(nfc, "") == ""
  {
  }

  /** `normalizeText` is not idempotent. With an NFC that leaves these ASCII
      strings alone (as NFC does), "a\r\r\nb" normalizes to "a\r\nb", and
      that normalizes further to "a\nb". */
  lemma NormalizeTextNotIdempotent(nfc: Nfc)
    requires nfc("a\r\nb") == "a\r\nb" && nfc("a\nb") == "a\nb"
    ensures NormalizeText(nfc, "a\r\r\nb") == "a\r\nb"
    ensures NormalizeText(nfc, NormalizeText(nfc, "a\r\r\nb")) == "a\nb"
    ensures NormalizeText(nfc, NormalizeText(nfc, "a\r\r\nb")) != NormalizeText(nfc, "a\r\r\nb")
  {
    var s := "a\r\r\nb";
    assert s[1..] == "\r\r\nb" && s[1..][1..] == "\r\nb" && s[1..][1..][2..] == "b";
    assert ReplaceCrlf(s) == "a\r\nb";
    assert NoEdgeWhiteSpace("a\r\nb");
    TrimFixesTrimmed("a\r\nb");
    var t := "a\r\nb";
    assert t[1..] == "\r\nb" && t[1..][2..] == "b";
    assert ReplaceCrlf(t) == "a\nb";
    assert NoEdgeWhiteSpace("a\nb");
    TrimFixesTrimmed("a\nb");
  }

  // ---------------------------------------------------------------------
  // The best Sinhala candidate (lines 63-69 and 74-80)

  /** A code point of the Unicode Sinhala block, U+0D80 to U+0DFF. */
  predicate IsSinhala(c: char) {
    '\U{0D80}' <= c <= '\U{0DFF}'
  }

  /** The regular-expression test `/[\u0D80-\u0DFF]/.test(s)`. The pattern has
      no `u` flag, so it compares UTF-16 code units; the range lies in the
      Basic Multilingual Plane outside the surrogates, so a code unit in it is
      exactly a code point in it. */
  predicate HasSinhala(s: string) {
    exists i | 0 <= i < |s| :: IsSinhala(s[i])
  }

  /** How many candidates a scan inspects. */
  const MaxCandidates: nat := 25

  /** `Math.min(count, 25)`. */
  function ScanLimit(count: nat): (n: nat)
    ensures n <= count && n <= MaxCandidates
    ensures n == count || n == MaxCandidates
  {
    if count < MaxCandidates then count else MaxCandidates
  }

  /** The index the scan keeps among the normalized texts `txts`, or -1 for
      none: the first text, among those containing a Sinhala code point, of
      the greatest UTF-16 length. */
  function BestIndex(txts: seq<string>): (k: int)
    ensures -1 <= k < |txts|
    ensures k == -1 <==> forall i | 0 <= i < |txts| :: !HasSinhala(txts[i])
    ensures k >= 0 ==> HasSinhala(txts[k])
    ensures k >= 0 ==> forall i | 0 <= i < |txts| && HasSinhala(txts[i]) ::
      Utf16Length(txts[i]) <= Utf16Length(txts[k])
    ensures k >= 0 ==> forall i | 0 <= i < k && HasSinhala(txts[i]) ::
      Utf16Length(txts[i]) < Utf16Length(txts[k])
  {
    if txts == [] then -1
    else
      var last := |txts| - 1;
      var init := txts[..last];
      var k := BestIndex(init);
      var t := txts[last];
      var bestLength := if k < 0 then 0 else Utf16Length(init[k]);
      assert forall i | 0 <= i < last :: txts[i] == init[i];
      if HasSinhala(t) && Utf16Length(t) > bestLength then last else k
  }

  /** The text the scan keeps: "" when no text contains a Sinhala code point. */
  function PickBest(txts: seq<string>): (r: string)
    ensures r == "" || (r in txts && HasSinhala(r))
  {
    var k := BestIndex(txts);
    if k < 0 then "" else txts[k]
  }

  /** What the scan promises: the kept text is "" exactly when no candidate
      qualifies; otherwise it is a qualifying candidate at least as long as
      every qualifying candidate and strictly longer than every qualifying
      candidate before it, so that on a tie the earliest one is kept. */
  lemma PickBestSpec(txts: seq<string>)
    ensures PickBest(txts) == "" <==> forall i | 0 <= i < |txts| :: !HasSinhala(txts[i])
    ensures PickBest(txts) == "" || HasSinhala(PickBest(txts))
    ensures forall i | 0 <= i < |txts| && HasSinhala(txts[i]) ::
      Utf16Length(txts[i]) <= Utf16Length(PickBest(txts))
    ensures PickBest(txts) != "" ==>
      exists k | 0 <= k < |txts| :: txts[k] == PickBest(txts) &&
        forall i | 0 <= i < k && HasSinhala(txts[i]) :: Utf16Length(txts[i]) < Utf16Length(PickBest(txts))
  {
    var k := BestIndex(txts);
    if k >= 0 {
      assert |txts[k]| > 0;
    }
  }

  /** One step of the scan loop: a later text replaces the kept one only if
      it qualifies and is strictly longer. */
  lemma PickBestSnoc(txts: seq<string>, t: string)
    ensures PickBest(txts + [t]) ==
      if HasSinhala(t) && Utf16Length(t) > Utf16Length(PickBest(txts)) then t else PickBest(txts)
  {
    assert (txts + [t])[..|txts|] == txts;
  }

  /** Every candidate text normalized. */
  function NormalizeAll(nfc: Nfc, texts: seq<string>): (r: seq<string>)
    ensures |r| == |texts|
    ensures forall i | 0 <= i < |texts| :: r[i] == NormalizeText(nfc, texts[i])
  {
    Map(texts, t => NormalizeText(nfc, t))
  }

  /** The scan loop: inspect the first `min(count, 25)` candidate texts,
      normalize each and keep the longest one containing Sinhala. */
  method BestSinhalaText(nfc: Nfc, texts: seq<string>) returns (best: string)
    ensures best == PickBest(NormalizeAll(nfc, texts[..ScanLimit(|texts|)]))
    ensures best == "" ||
      (HasSinhala(best) && exists i | 0 <= i < ScanLimit(|texts|) :: best == NormalizeText(nfc, texts[i]))
    ensures forall i | 0 <= i < ScanLimit(|texts|) && HasSinhala(NormalizeText(nfc, texts[i])) ::
      Utf16Length(NormalizeText(nfc, texts[i])) <= Utf16Length(best)
  {
    best := "";
    var n := ScanLimit(|texts|);
    for i := 0 to n
      invariant best == PickBest(NormalizeAll(nfc, texts[..i]))
    {
      var txt := NormalizeText(nfc, texts[i]);
      assert NormalizeAll(nfc, texts[..i + 1]) == NormalizeAll(nfc, texts[..i]) + [txt];
      PickBestSnoc(NormalizeAll(nfc, texts[..i]), txt);
      if HasSinhala(txt) && Utf16Length(txt) > Utf16Length(best) {
        best := txt;
      }
    }
    var txts := NormalizeAll(nfc, texts[..n]);
    PickBestSpec(txts);
    assert forall i | 0 <= i < n :: txts[i] == NormalizeText(nfc, texts[i]);
  }

  /** Candidates after the first 25 never influence the scan. */
  lemma ScanIgnoresLaterCandidates(nfc: Nfc, texts: seq<string>, more: seq<string>)
    requires |texts| >= MaxCandidates
    ensures PickBest(NormalizeAll(nfc, (texts + more)[..ScanLimit(|texts + more|)]))
         == PickBest(NormalizeAll(nfc, texts[..ScanLimit(|texts|)]))
  {
    assert (texts + more)[..ScanLimit(|texts + more|)] == texts[..ScanLimit(|texts|)];
  }

  // ---------------------------------------------------------------------
  // The runnable cases (lines 85-87)

  /** A loaded case paired with its position among the runnable cases. */
  datatype IndexedCase = IndexedCase(tc: TestCase, index: nat)

  /** `tc.tcId && tc.name`: both non-empty. */
  predicate Runnable(tc: TestCase) {
    tc.tcId != "" && tc.name != ""
  }

  /** `.filter((tc) => tc.tcId && tc.name).map((tc, i) => ({ ...tc, __index: i }))`. */
  function IndexCases(cases: seq<TestCase>): (r: seq<IndexedCase>)
    ensures |r| <= |cases|
    ensures forall i | 0 <= i < |r| :: r[i].index == i && Runnable(r[i].tc) && r[i].tc in cases
    ensures forall j | 0 <= j < |cases| && Runnable(cases[j]) :: exists i | 0 <= i < |r| :: r[i].tc == cases[j]
  {
    var kept := Filter(cases, Runnable);
    var r := seq(|kept|, i requires 0 <= i < |kept| => IndexedCase(kept[i], i));
    assert forall j | 0 <= j < |cases| && Runnable(cases[j]) :: exists i | 0 <= i < |r| :: r[i].tc == cases[j] by {
      forall j | 0 <= j < |cases| && Runnable(cases[j]) ensures exists i | 0 <= i < |r| :: r[i].tc == cases[j] {
        var i :| 0 <= i < |kept| && kept[i] == cases[j];
        assert r[i].tc == cases[j];
      }
    }
    r
  }

  /** Numbering keeps the original order of the runnable cases. */
  lemma IndexCasesOrder(cases: seq<TestCase>)
    ensures Map(IndexCases(cases), (ic: IndexedCase) => ic.tc) == Filter(cases, Runnable)
  {
  }

  /** When every case has an id and a name, none is dropped: each keeps its
      position as its `__index`. */
  lemma IndexCasesAllRunnable(cases: seq<TestCase>)
    requires forall i | 0 <= i < |cases| :: Runnable(cases[i])
    ensures |IndexCases(cases)| == |cases|
    ensures forall i | 0 <= i < |cases| :: IndexCases(cases)[i] == IndexedCase(cases[i], i)
  {
    FilterAll(cases, Runnable);
    IndexCasesOrder(cases);
    var r := IndexCases(cases);
    assert |Map(r, (ic: IndexedCase) => ic.tc)| == |r|;
    forall i | 0 <= i < |cases| ensures r[i] == IndexedCase(cases[i], i) {
      assert Map(r, (ic: IndexedCase) => ic.tc)[i] == r[i].tc;
    }
  }

  /** Cases from the loader already have an id, so a loaded case is runnable
      exactly when it has a name. */
  lemma LoadedCaseRunnable(rows: seq<Record>, i: int)
    requires 0 <= i < |SelectCases(rows)|
    ensures Runnable(SelectCases(rows)[i]) <==> SelectCases(rows)[i].name != ""
  {
  }

  // ---------------------------------------------------------------------
  // Entry mode (lines 108-118)

  /** `String(tc.tcId).startsWith("Pos_UI") || String(tc.tcId).startsWith("Neg_UI")`. */
  function IsUiTest(tcId: string): (b: bool)
    ensures b <==> |tcId| >= 6 && (tcId[..6] == "Pos_UI" || tcId[..6] == "Neg_UI")
  {
    StartsWith(tcId, "Pos_UI") || StartsWith(tcId, "Neg_UI")
  }

  /** How the input reaches the page: typed key by key, or filled at once. */
  datatype EntryMode = Typed | Filled

  /** UI tests type their input with a per-key delay; all others fill it. */
  function EntryModeOf(tcId: string): (m: EntryMode)
    ensures m == Typed <==> IsUiTest(tcId)
  {
    if IsUiTest(tcId) then Typed else Filled
  }

  /** The naming convention on sample identifiers; the prefix is case-sensitive. */
  lemma EntryModeExamples()
    ensures EntryModeOf("Pos_UI_001") == Typed
    ensures EntryModeOf("Neg_UI_0005") == Typed
    ensures EntryModeOf("Pos_Func_001") == Filled
    ensures EntryModeOf("pos_UI_001") == Filled
    ensures EntryModeOf("Neg_U") == Filled
  {
    assert "Pos_UI_001"[..6] == "Pos_UI";
    assert "Neg_UI_0005"[..6] == "Neg_UI";
    assert "Pos_Func_001"[..6] == "Pos_Fu";
    assert "pos_UI_001"[0] == 'p';
  }

  // ---------------------------------------------------------------------
  // Verdict and result records (lines 100, 119-137)

  datatype Status = Pass | Fail

  /** `pass ? "Pass" : "Fail"` with `pass = normalizeText(actual) === normalizeText(tc.expected)`. */
  function Verdict(nfc: Nfc, actual: string, expected: string): Status {
    if NormalizeText(nfc, actual) == NormalizeText(nfc, expected) then Pass else Fail
  }

  /** The assertion `expect(normalizeText(actual)).toBe(expected)`. */
  predicate AssertionHolds(nfc: Nfc, actual: string, expected: string) {
    NormalizeText(nfc, actual) == NormalizeText(nfc, expected)
  }

  /** The recorded status is "Fail" exactly when the assertion fails. */
  lemma VerdictAgreesWithAssertion(nfc: Nfc, actual: string, expected: string)
    ensures Verdict(nfc, actual, expected) == Fail <==> !AssertionHolds(nfc, actual, expected)
    ensures Verdict(nfc, actual, expected) == Pass <==> AssertionHolds(nfc, actual, expected)
  {
  }

  /** Output identical to the expected text passes; an empty output against
      a non-blank expected text fails when NFC keeps both as they are. */
  lemma VerdictScenarios(nfc: Nfc)
    requires nfc("") == "" && nfc("\U{0DB8}\U{0DB8}") == "\U{0DB8}\U{0DB8}"
    ensures Verdict(nfc, "\U{0DB8}\U{0DB8}", "\U{0DB8}\U{0DB8}") == Pass
    ensures Verdict(nfc, "", "\U{0DB8}\U{0DB8}") == Fail
  {
    assert NoEdgeWhiteSpace("\U{0DB8}\U{0DB8}");
    TrimFixesTrimmed("\U{0DB8}\U{0DB8}");
    var s := "\U{0DB8}\U{0DB8}";
    assert s[1..][1..] == [];
    assert ReplaceCrlf(s) == s;
  }

  /** The record pushed onto `results`. */
  datatype ResultRecord = ResultRecord(
    tcId: string,
    name: string,
    input: string,
    expected: string,
    actual: string,
    status: Status)

  /** What one test reports to the harness. */
  datatype Outcome =
    | Skipped                                  // `test.skip`: empty input
    | Aborted                                  // a bounded wait on the page timed out
    | Passed
    | Failed(expected: string, received: string)

  /** The record lines 127-134 build from a case and the text read from the page. */
  function MakeRecord(nfc: Nfc, tc: TestCase, actual: string): (rec: ResultRecord)
    ensures rec.status == Pass <==> NormalizeText(nfc, actual) == NormalizeText(nfc, tc.expected)
    ensures rec.tcId == tc.tcId && rec.name == tc.name && rec.input == tc.input
    ensures rec.expected == tc.expected && rec.actual == actual
  {
    ResultRecord(tc.tcId, tc.name, tc.input, tc.expected, actual, Verdict(nfc, actual, tc.expected))
  }

  /** How one test ends, given the text read from the page (None when a
      bounded wait timed out): skipped for an empty input, aborted on a
      timeout, and otherwise passed or failed as the assertion decides, a
      failure carrying both normalized texts. */
  function OutcomeOf(nfc: Nfc, tc: TestCase, observed: Option<string>): (o: Outcome)
    ensures o == Skipped <==> tc.input == ""
    ensures o == Aborted <==> tc.input != "" && observed.None?
    ensures o.Failed? <==>
      tc.input != "" && observed.Some? && MakeRecord(nfc, tc, observed.value).status == Fail
    ensures o.Failed? ==>
      o.expected == NormalizeText(nfc, tc.expected) && o.received == NormalizeText(nfc, observed.value)
  {
    if tc.input == "" then Skipped
    else if observed.None? then Aborted
    else if AssertionHolds(nfc, observed.value, tc.expected) then Passed
    else Failed(NormalizeText(nfc, tc.expected), NormalizeText(nfc, observed.value))
  }

  /** The in-memory `results` array: appended to, never rewritten. */
  class Results {
    var records: seq<ResultRecord>

    constructor ()
      ensures records == []
    {
      records := [];
    }

    /** `results.push(rec)`. */
    method Push(rec: ResultRecord)
      modifies this
      ensures records == old(records) + [rec]
    {
      records := records + [rec];
    }
  }

  /** The body of one test. `observed` is the text the output locator read
      from the page, or None when one of its bounded waits timed out (which
      throws before anything is recorded). A case with empty input is skipped
      before the output locator reads the page. The `beforeEach` navigation
      is taken to have succeeded. */
  method RunCase(results: Results, nfc: Nfc, ic: IndexedCase, observed: Option<string>)
    returns (outcome: Outcome)
    modifies results
    ensures ic.tc.input == "" ==> outcome == Skipped
    ensures ic.tc.input != "" && observed.None? ==> outcome == Aborted
    ensures (ic.tc.input == "" || observed.None?) ==> results.records == old(results.records)
    ensures ic.tc.input != "" && observed.Some? ==>
      results.records == old(results.records) + [MakeRecord(nfc, ic.tc, observed.value)]
    ensures ic.tc.input != "" && observed.Some? ==>
      (outcome == Passed <==> MakeRecord(nfc, ic.tc, observed.value).status == Pass)
    ensures outcome.Failed? ==>
      outcome.expected == NormalizeText(nfc, ic.tc.expected) &&
      outcome.received == NormalizeText(nfc, observed.value) &&
      MakeRecord(nfc, ic.tc, observed.value).status == Fail
    ensures ic.tc.input != "" && observed.Some? ==>
      (outcome.Failed? <==> MakeRecord(nfc, ic.tc, observed.value).status == Fail)
    ensures outcome == OutcomeOf(nfc, ic.tc, observed)
  {
    if ic.tc.input == "" {
      return Skipped;
    }
    if observed.None? {
      return Aborted;
    }
    var actual := observed.value;
    var expected := NormalizeText(nfc, ic.tc.expected);
    var pass := NormalizeText(nfc, actual) == expected;
    results.Push(ResultRecord(ic.tc.tcId, ic.tc.name, ic.tc.input, ic.tc.expected, actual,
                              if pass then Pass else Fail));
    if NormalizeText(nfc, actual) == expected {
      outcome := Passed;
    } else {
      outcome := Failed(expected, NormalizeText(nfc, actual));
    }
  }

  /** A case that reaches the push: non-empty input and an output read. */
  predicate Recorded(ic: IndexedCase, observe: IndexedCase -> Option<string>) {
    ic.tc.input != "" && observe(ic).Some?
  }

  /** The records a run appends, in the order the cases run. */
  function RecordsOf(nfc: Nfc, cases: seq<IndexedCase>, observe: IndexedCase -> Option<string>): (r: seq<ResultRecord>)
    ensures |r| <= |cases|
  {
    if cases == [] then []
    else
      var ic := cases[0];
      (if Recorded(ic, observe) then [MakeRecord(nfc, ic.tc, observe(ic).value)] else [])
        + RecordsOf(nfc, cases[1..], observe)
  }

  /** A run's records are exactly the recorded cases, one each and in order,
      each with the verdict of its own comparison. */
  lemma {:induction false} RecordsOfSpec(nfc: Nfc, cases: seq<IndexedCase>, observe: IndexedCase -> Option<string>)
    ensures var recorded := Filter(cases, ic => Recorded(ic, observe));
      && |RecordsOf(nfc, cases, observe)| == |recorded|
      && forall i | 0 <= i < |recorded| ::
           RecordsOf(nfc, cases, observe)[i] == MakeRecord(nfc, recorded[i].tc, observe(recorded[i]).value)
  {
    if cases != [] {
      RecordsOfSpec(nfc, cases[1..], observe);
    }
  }

  /** The loop over `testCases` as one worker process runs it: every case
      runs once, in order, against the one `results` list of that process.
      `observe` stands for the page: what the output locator reads for each
      case. */
  method RunAll(results: Results, nfc: Nfc, cases: seq<IndexedCase>, observe: IndexedCase -> Option<string>)
    returns (outcomes: seq<Outcome>)
    modifies results
    ensures |outcomes| == |cases|
    ensures forall i | 0 <= i < |cases| :: outcomes[i] == OutcomeOf(nfc, cases[i].tc, observe(cases[i]))
    ensures results.records == old(results.records) + RecordsOf(nfc, cases, observe)
  {
    outcomes := [];
    for i := 0 to |cases|
      invariant |outcomes| == i
      invariant forall k | 0 <= k < i :: outcomes[k] == OutcomeOf(nfc, cases[k].tc, observe(cases[k]))
      invariant results.records == old(results.records) + RecordsOf(nfc, cases[..i], observe)
    {
      var o := RunCase(results, nfc, cases[i], observe(cases[i]));
      outcomes := outcomes + [o];
      RecordsOfSnoc(nfc, cases[..i], cases[i], observe);
      assert cases[..i + 1] == cases[..i] + [cases[i]];
    }
    assert cases[..|cases|] == cases;
  }

  /** Running one more case appends at most its own record. */
  lemma {:induction false} RecordsOfSnoc(nfc: Nfc, cases: seq<IndexedCase>, ic: IndexedCase, observe: IndexedCase -> Option<string>)
    ensures RecordsOf(nfc, cases + [ic], observe) ==
      RecordsOf(nfc, cases, observe) + (if Recorded(ic, observe) then [MakeRecord(nfc, ic.tc, observe(ic).value)] else [])
  {
    if cases == [] {
      assert [ic][1..] == [];
    } else {
      assert (cases + [ic])[1..] == cases[1..] + [ic];
      RecordsOfSnoc(nfc, cases[1..], ic, observe);
    }
  }
}
