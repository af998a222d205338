/** The pure string handling of the arithmetic-captcha helper: cleaning the
    recogniser's raw answer down to its last run of digits, and splitting an
    inline `data:image` source into image format and base64 payload. */
module MathCaptcha {
  import opened Wrappers
  import opened Text

  // ---------------------------------------------------------------------------
  // re.findall(r'\d+', s): the maximal digit runs, left to right
  // ---------------------------------------------------------------------------

  /** `[i, j)` is a maximal run of digits in `s`: non-empty, all digits, and
      not extended by a digit on either side. */
  predicate IsDigitRun(s: string, i: int, j: int) {
    && 0 <= i < j <= |s|
    && (forall k :: i <= k < j ==> IsDigit(s[k]))
    && (i == 0 || !IsDigit(s[i - 1]))
    && (j == |s| || !IsDigit(s[j]))
  }

  /** No digit occurs in `s` at index `i` or later. */
  predicate NoDigitFrom(s: string, i: nat) {
    forall p :: i <= p < |s| ==> !IsDigit(s[p])
  }

  /** `[i, j)` is the last maximal digit run of `s`: no digit follows it. */
  predicate IsLastDigitRun(s: string, i: int, j: int) {
    IsDigitRun(s, i, j) && NoDigitFrom(s, j)
  }

  /** The end of the digit run that continues at `i`: the first non-digit at or
      after `i`, or `|s|`. */
  function RunEnd(s: string, i: nat): (j: nat)
    requires i <= |s|
    ensures i <= j <= |s|
    ensures forall k :: i <= k < j ==> IsDigit(s[k])
    ensures j == |s| || !IsDigit(s[j])
    decreases |s| - i
  {
    if i == |s| || !IsDigit(s[i]) then i else RunEnd(s, i + 1)
  }

  /** The properties `DigitRunSpans` promises of the spans it finds from `from` on. */
  ghost predicate SpansFrom(s: string, from: nat, spans: seq<(nat, nat)>) {
    && SpansAreRuns(s, from, spans)
    && SpansOrdered(spans)
    && (|spans| == 0 <==> NoDigitFrom(s, from))
    && SpansLastFinal(s, spans)
    && SpansComplete(s, from, spans)
  }

  /** Every span is a maximal run starting at `from` or later. */
  predicate SpansAreRuns(s: string, from: nat, spans: seq<(nat, nat)>) {
    forall k :: 0 <= k < |spans| ==> from <= spans[k].0 && IsDigitRun(s, spans[k].0, spans[k].1)
  }

  /** Each span ends before the next one starts. */
  predicate SpansOrdered(spans: seq<(nat, nat)>) {
    forall k, l :: 0 <= k < l < |spans| ==> spans[k].1 < spans[l].0
  }

  /** No digit follows the last span. */
  predicate SpansLastFinal(s: string, spans: seq<(nat, nat)>) {
    |spans| > 0 ==> NoDigitFrom(s, spans[|spans| - 1].1)
  }

  /** Every maximal run starting at `from` or later is among the spans. */
  ghost predicate SpansComplete(s: string, from: nat, spans: seq<(nat, nat)>) {
    forall i, j :: from <= i && IsDigitRun(s, i, j) ==> (i, j) in spans
  }

  /** The spans `re.findall(r'\d+', s)` matches when it resumes searching at
      `from`, which is not strictly inside a run of digits: maximal runs, in
      order, the last one followed by no digit, none at all exactly when no
      digit remains, and every maximal run from `from` on among them. */
  function DigitRunSpans(s: string, from: nat): (spans: seq<(nat, nat)>)
    requires from <= |s|
    requires from == 0 || from == |s| || !IsDigit(s[from - 1]) || !IsDigit(s[from])
    ensures SpansFrom(s, from, spans)
    decreases |s| - from
  {
    if from == |s| then []
    else if !IsDigit(s[from]) then
      var spans := DigitRunSpans(s, from + 1);
      SpansSkip(s, from, spans);
      spans
    else
      var end := RunEnd(s, from);
      var rest := DigitRunSpans(s, end);
      SpansCons(s, from, end, rest);
      [(from, end)] + rest
  }

  /** A maximal run found at `from`, followed by the spans found from its end. */
  lemma SpansCons(s: string, from: nat, end: nat, rest: seq<(nat, nat)>)
    requires IsDigitRun(s, from, end)
    requires SpansFrom(s, end, rest)
    ensures SpansFrom(s, from, [(from, end)] + rest)
  {
    SpansConsRuns(s, from, end, rest);
    SpansConsOrdered(s, from, end, rest);
    SpansConsLast(s, from, end, rest);
    SpansConsComplete(s, from, end, rest);
    assert IsDigit(s[from]);
  }

  /** Each span of the extended list is a maximal run starting at `from` or later. */
  lemma SpansConsRuns(s: string, from: nat, end: nat, rest: seq<(nat, nat)>)
    requires IsDigitRun(s, from, end)
    requires SpansAreRuns(s, end, rest)
    ensures SpansAreRuns(s, from, [(from, end)] + rest)
  {
    var spans := [(from, end)] + rest;
    forall k | 0 <= k < |spans|
      ensures from <= spans[k].0 && IsDigitRun(s, spans[k].0, spans[k].1)
    {
      if k > 0 {
        assert spans[k] == rest[k - 1];
      }
    }
  }

  /** The run at `from` ends before every span found after it starts. */
  lemma SpansConsOrdered(s: string, from: nat, end: nat, rest: seq<(nat, nat)>)
    requires IsDigitRun(s, from, end)
    requires SpansAreRuns(s, end, rest)
    requires SpansOrdered(rest)
    ensures SpansOrdered([(from, end)] + rest)
  {
    var spans := [(from, end)] + rest;
    forall k, l | 0 <= k < l < |spans|
      ensures spans[k].1 < spans[l].0
    {
      assert spans[l] == rest[l - 1];
      if k > 0 {
        assert spans[k] == rest[k - 1];
      } else {
        assert IsDigit(s[rest[l - 1].0]);
      }
    }
  }

  /** No digit follows the last span of the extended list. */
  lemma SpansConsLast(s: string, from: nat, end: nat, rest: seq<(nat, nat)>)
    requires end <= |s|
    requires |rest| == 0 <==> NoDigitFrom(s, end)
    requires SpansLastFinal(s, rest)
    ensures SpansLastFinal(s, [(from, end)] + rest)
  {
    if |rest| > 0 {
      assert ([(from, end)] + rest)[|rest|] == rest[|rest| - 1];
    }
  }

  /** Every maximal run from `from` on is the run at `from` or one found after it. */
  lemma SpansConsComplete(s: string, from: nat, end: nat, rest: seq<(nat, nat)>)
    requires IsDigitRun(s, from, end)
    requires SpansComplete(s, end, rest)
    ensures SpansComplete(s, from, [(from, end)] + rest)
  {
    forall i, j | from <= i && IsDigitRun(s, i, j)
      ensures (i, j) in [(from, end)] + rest
    {
      if i < end {
        RunStartingInsideRun(s, from, end, i, j);
      } else {
        assert (i, j) in rest;
      }
    }
  }

  /** A maximal run that starts inside another maximal run is that run. */
  lemma RunStartingInsideRun(s: string, from: int, end: int, i: int, j: int)
    requires IsDigitRun(s, from, end) && IsDigitRun(s, i, j) && from <= i < end
    ensures i == from && j == end
  {
  }

  /** A non-digit at `from` starts no run, so the spans from the next index on
      are the spans from `from` on. */
  lemma SpansSkip(s: string, from: nat, spans: seq<(nat, nat)>)
    requires from < |s| && !IsDigit(s[from])
    requires SpansFrom(s, from + 1, spans)
    ensures SpansFrom(s, from, spans)
  {
    assert forall i, j :: from <= i && IsDigitRun(s, i, j) ==> from + 1 <= i;
  }

  /** `re.findall(r'\d+', s)`: the text of each span `DigitRunSpans` finds
      from index 0, one for one and in order. */
  function DigitRuns(s: string): (runs: seq<string>)
    ensures forall k :: 0 <= k < |runs| ==> |runs[k]| > 0 && AllDigits(runs[k])
    ensures |runs| == 0 <==> NoDigitFrom(s, 0)
  {
    var spans := DigitRunSpans(s, 0);
    seq(|spans|, k requires 0 <= k < |spans| => s[spans[k].0..spans[k].1])
  }

  /** The strings `findall` yields, `runs`, cover the maximal digit runs: one string per
      span `DigitRunSpans` finds (so one per maximal run, in increasing order),
      each the text of a maximal run, the text of every maximal run among them,
      and the last the text of the last maximal run. */
  lemma DigitRunsCoverRuns(s: string, runs: seq<string>)
    requires runs == DigitRuns(s)
    ensures |runs| == |DigitRunSpans(s, 0)|
    ensures forall k :: 0 <= k < |runs| ==> exists i, j :: IsDigitRun(s, i, j) && runs[k] == s[i..j]
    ensures forall i, j :: IsDigitRun(s, i, j) ==> s[i..j] in runs
    ensures |runs| > 0 ==> forall i, j :: IsLastDigitRun(s, i, j) ==> runs[|runs| - 1] == s[i..j]
  {
    DigitRunsAreSpanTexts(s);
    RunTexts(s, DigitRunSpans(s, 0), runs);
  }

  /** `DigitRuns(s)` holds the text of each span found from index 0, one for one. */
  lemma DigitRunsAreSpanTexts(s: string)
    ensures |DigitRuns(s)| == |DigitRunSpans(s, 0)|
    ensures forall k :: 0 <= k < |DigitRunSpans(s, 0)| ==>
      DigitRuns(s)[k] == s[DigitRunSpans(s, 0)[k].0..DigitRunSpans(s, 0)[k].1]
  {
  }

  /** The texts of a complete span list are exactly the texts of the maximal runs. */
  lemma RunTexts(s: string, spans: seq<(nat, nat)>, runs: seq<string>)
    requires SpansAreRuns(s, 0, spans) && SpansLastFinal(s, spans) && SpansComplete(s, 0, spans)
    requires |runs| == |spans|
    requires forall k :: 0 <= k < |spans| ==> runs[k] == s[spans[k].0..spans[k].1]
    ensures forall k :: 0 <= k < |runs| ==> exists i, j :: IsDigitRun(s, i, j) && runs[k] == s[i..j]
    ensures forall i, j :: IsDigitRun(s, i, j) ==> s[i..j] in runs
    ensures |runs| > 0 ==> forall i, j :: IsLastDigitRun(s, i, j) ==> runs[|runs| - 1] == s[i..j]
  {
    forall k | 0 <= k < |runs|
      ensures exists i, j :: IsDigitRun(s, i, j) && runs[k] == s[i..j]
    {
      assert IsDigitRun(s, spans[k].0, spans[k].1);
    }
    forall i, j | IsDigitRun(s, i, j)
      ensures s[i..j] in runs
    {
      assert (i, j) in spans;
      var k :| 0 <= k < |spans| && spans[k] == (i, j);
      assert runs[k] == s[i..j];
    }
    if |runs| > 0 {
      var last := spans[|spans| - 1];
      forall i, j | IsLastDigitRun(s, i, j)
        ensures runs[|runs| - 1] == s[i..j]
      {
        LastDigitRunUnique(s, i, j, last.0, last.1);
      }
    }
  }

  // ---------------------------------------------------------------------------
  // clean_captcha_result
  // ---------------------------------------------------------------------------

  /** Strings whose presence marks the recogniser's answer as a failure:
      "<|observation|>", "识别失败", "无法识别", "错误", "异常", "无结果". */
  const AbnormalMarkers: seq<string> := [
    "<|observation|>",
    "\U{8BC6}\U{522B}\U{5931}\U{8D25}",
    "\U{65E0}\U{6CD5}\U{8BC6}\U{522B}",
    "\U{9519}\U{8BEF}",
    "\U{5F02}\U{5E38}",
    "\U{65E0}\U{7ED3}\U{679C}"
  ]

  /** Every abnormal marker is non-empty and starts with a character that is
      not a digit. */
  lemma MarkersStartWithNonDigit()
    ensures |AbnormalMarkers| == 6
    ensures forall k :: 0 <= k < |AbnormalMarkers| ==>
      |AbnormalMarkers[k]| > 0 && !IsDigit(AbnormalMarkers[k][0])
  {
  }

  /** `any(marker in s for marker in abnormal_markers)`: some marker occurs in `s`. */
  predicate HasAbnormalMarker(s: string) {
    exists k :: 0 <= k < |AbnormalMarkers| && Contains(s, AbnormalMarkers[k])
  }

  /** `clean_captcha_result`: `None` for an empty answer or one carrying an
      abnormal marker, otherwise the last run of digits, `None` if there is none. */
  function Clean(raw: string): (r: Option<string>)
    ensures |raw| == 0 ==> r.None?
    ensures HasAbnormalMarker(raw) ==> r.None?
    ensures r.Some? ==> |r.value| > 0 && AllDigits(r.value) && exists i :: OccursAt(raw, r.value, i)
    ensures r.Some? ==> exists i, j :: IsLastDigitRun(raw, i, j) && r.value == raw[i..j]
    ensures |raw| > 0 && !HasAbnormalMarker(raw) ==>
      (r.None? <==> NoDigitFrom(raw, 0))
  {
    if |raw| == 0 then None
    else if HasAbnormalMarker(raw) then None
    else
      var numbers := DigitRuns(raw);
      if |numbers| > 0 then
        var spans := DigitRunSpans(raw, 0);
        var last := spans[|spans| - 1];
        assert numbers[|numbers| - 1] == raw[last.0..last.1];
        assert IsLastDigitRun(raw, last.0, last.1);
        assert OccursAt(raw, numbers[|numbers| - 1], last.0);
        Some(numbers[|numbers| - 1])
      else None
  }

  /** A string has at most one last maximal digit run. */
  lemma LastDigitRunUnique(s: string, i: int, j: int, i': int, j': int)
    requires IsLastDigitRun(s, i, j) && IsLastDigitRun(s, i', j')
    ensures i == i' && j == j'
  {
    assert IsDigit(s[j - 1]) && IsDigit(s[j' - 1]);
    assert j == j';
    assert (i > 0 ==> !IsDigit(s[i - 1])) && (i' > 0 ==> !IsDigit(s[i' - 1]));
  }

  /** No abnormal marker fits inside a string of digits. */
  lemma DigitsHaveNoMarker(d: string)
    requires AllDigits(d)
    ensures !HasAbnormalMarker(d)
  {
    MarkersStartWithNonDigit();
    forall k | 0 <= k < |AbnormalMarkers|
      ensures !Contains(d, AbnormalMarkers[k])
    {
      DigitsAvoid(d, AbnormalMarkers[k]);
    }
  }

  /** A non-empty digit string is its own answer. */
  lemma CleanDigits(d: string)
    requires |d| > 0 && AllDigits(d)
    ensures Clean(d) == Some(d)
  {
    DigitsHaveNoMarker(d);
    assert IsDigit(d[0]);
    var r := Clean(d);
    var i, j :| IsLastDigitRun(d, i, j) && r.value == d[i..j];
    assert IsLastDigitRun(d, 0, |d|);
    LastDigitRunUnique(d, i, j, 0, |d|);
    assert d[0..|d|] == d;
  }

  /** Cleaning is idempotent. */
  lemma CleanIdempotent(raw: string)
    requires Clean(raw).Some?
    ensures Clean(Clean(raw).value) == Clean(raw)
  {
    CleanDigits(Clean(raw).value);
  }

  // ---------------------------------------------------------------------------
  // The data:image branch of get_captcha_base64
  // ---------------------------------------------------------------------------

  /** What `get_captcha_base64` makes of an image source. */
  datatype ImageSource =
    | Inline(payload: string, format: string)   // `(base64_data, img_format)`
    | Unreadable                                 // an IndexError: `(None, None)`
    | NotDataUri                                 // the screenshot branch

  const DataImagePrefix: string := "data:image"

  /** The header before the first `;`, whose second `/`-piece is the format. */
  function Header(src: string): (h: string)
    ensures IsFirstField(src, ';', |h|) && h == src[..|h|]
  {
    assert src[0..] == src;
    var k := FirstIndexFrom(src, ';', 0);
    assert src[0..k] == src[..k];
    FirstFieldBounds(src, ';', k);
    Split(src, ';')[0]
  }

  /** `img_format = src.split(';')[0].split('/')[1]` and
      `base64_data = src.split(',')[1]`, each failing index yielding `(None, None)`. */
  function SplitImageSource(src: string): (r: ImageSource)
    ensures r.NotDataUri? <==> !HasPrefix(src, DataImagePrefix)
    ensures r.Unreadable? <==> HasPrefix(src, DataImagePrefix) && ('/' !in Header(src) || ',' !in src)
    ensures r.Inline? ==> '/' !in r.format && ';' !in r.format && ',' !in r.payload
    ensures r.Inline? ==> forall i, j :: IsSecondField(Header(src), '/', i, j) ==> r.format == Header(src)[i..j]
    ensures r.Inline? ==> forall i, j :: IsSecondField(src, ',', i, j) ==> r.payload == src[i..j]
  {
    if !HasPrefix(src, DataImagePrefix) then NotDataUri
    else
      var header := Header(src);
      SecondFieldExists(header, '/');
      SecondFieldExists(src, ',');
      var format := Field(header, '/', 1);
      if format.None? then Unreadable
      else
        var payload := Field(src, ',', 1);
        if payload.None? then Unreadable
        else
          var span := SecondFieldSpan(header, '/');
          SecondFieldBounds(header, '/', span.0, span.1);
          forall i, j | IsSecondField(header, '/', i, j)
            ensures format.value == header[i..j]
          {
            SecondFieldBounds(header, '/', i, j);
          }
          forall i, j | IsSecondField(src, ',', i, j)
            ensures payload.value == src[i..j]
          {
            SecondFieldBounds(src, ',', i, j);
          }
          Inline(payload.value, format.value)
  }

  /** The inline source `recognize_captcha_with_llm` hands to the recogniser:
      `f"data:image/{img_format};base64,{base64_img}"`. */
  function DataUri(format: string, payload: string): string {
    DataImagePrefix + "/" + format + ";base64," + payload
  }

  /** Splitting an inline source recovers the format and payload it was built
      from, as long as the format holds none of `/ ; ,` and the payload no `,`
      (base64 never does). */
  lemma DataUriRoundTrip(format: string, payload: string)
    requires '/' !in format && ';' !in format && ',' !in format
    requires ',' !in payload
    ensures SplitImageSource(DataUri(format, payload)) == Inline(payload, format)
  {
    var head := DataImagePrefix + "/" + format;
    var src := DataUri(format, payload);
    assert src[..|DataImagePrefix|] == DataImagePrefix;
    DataUriHeader(format, payload);
    // The format follows the only '/' of the header.
    assert IsSecondField(head, '/', |DataImagePrefix| + 1, |head|) by {
      assert head[..|DataImagePrefix|] == DataImagePrefix;
      assert head[|DataImagePrefix| + 1..|head|] == format;
    }
    assert head[|DataImagePrefix| + 1..|head|] == format;
    // The payload follows the only ','.
    var comma := |head| + 7;
    assert src[comma] == ',';
    assert src[..comma] == head + ";base64";
    assert src[comma + 1..] == payload;
    assert IsSecondField(src, ',', comma + 1, |src|);
    SecondFieldExists(head, '/');
    SecondFieldExists(src, ',');
  }

  /** The header of an inline source built from a format without `;` is
      `data:image/` followed by the format. */
  lemma DataUriHeader(format: string, payload: string)
    requires ';' !in format
    ensures Header(DataUri(format, payload)) == DataImagePrefix + "/" + format
  {
    var head := DataImagePrefix + "/" + format;
    var src := DataUri(format, payload);
    assert src == head + ";base64," + payload;
    assert src[|head|] == ';';
    assert src[..|head|] == head;
    assert IsFirstField(src, ';', |head|);
    FirstFieldUnique(src, ';', |Header(src)|, |head|);
  }

  /** The format and payload of a typical inline PNG source. */
  lemma PngExample(src: string)
    requires src == "data:image/png;base64,XYZ"
    ensures SplitImageSource(src) == Inline("XYZ", "png")
  {
    assert DataUri("png", "XYZ") == src by {
      assert DataImagePrefix + "/" + "png" + ";base64," + "XYZ" == src;
    }
    DataUriRoundTrip("png", "XYZ");
  }
}
