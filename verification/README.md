# Slider and arithmetic captcha helpers: a Dafny model

This project models the two pure computations of the captcha-solving helpers:

* the **slider offset resolver** in `slider_verification` (`slider_verify.py`).
  It collects the opaque pixels (alpha > 128) of the puzzle-piece cutout and picks two anchors:
  the top-left one, least by `(x, y)`, and the bottom-left one, least by `(x, -y)`.
  It then scans the background image left to right for the first column whose pixel at the
  top anchor's row and whose pixel at `p1.y + (p2.y - p1.y)` are opaque and carry the
  respective anchor colours. The three outcomes stay distinct:
  no opaque pixels, no match, or the matching column.
* the **string helpers** of `math_captcha.py`:
  * `clean_captcha_result` rejects an empty answer or one carrying an abnormal marker.
    Otherwise it keeps the last run of digits (`re.findall(r'\d+', s)[-1]`).
  * the `data:image` branch of `get_captcha_base64` splits an inline source into format
    (`src.split(';')[0].split('/')[1]`) and payload (`src.split(',')[1]`).
    A missing separator gives `(None, None)`.

Images arrive already decoded, as rows of RGBA pixels (`Raster.Image`, read with `At(x, y)`
like PIL's `getpixel((x, y))`). Python's `None` is `Wrappers.Option`. Strings are `seq<char>`.
`Text.Split` models `str.split` with a one-character separator.
`Text.Field(s, sep, k)` models `s.split(sep)[k]` and returns `None` where Python raises `IndexError`.

Each computation has an independent reference definition, and the contracts connect the
computation to it:

* `Slider.IsTopAnchor` and `Slider.IsBottomAnchor`: the anchors, defined as extremes over all
  opaque pixels.
* `Slider.ColumnMatches`: a background column that matches both anchors.
* `MathCaptcha.IsLastDigitRun`: a maximal run of digits with no digit after it.
* `Text.IsFirstField` and `Text.IsSecondField`: where the first and second pieces of a split
  lie, given as indices.

Both modelled operations are functions, so running either one twice on the same input gives
the same result.

## Notes on the anchors

* `p1` is the leftmost opaque pixel first and the topmost one second: the code sorts by `(x, y)`.
* Both anchors lie in the leftmost opaque column, so `y_diff = p2.y - p1.y` is never negative
  (`Slider.AnchorsShareColumn`).
* Row `p1.y + (p2.y - p1.y)` is always row `p2.y`. `Slider.ColumnMatches` states the condition
  with `p2.y`, and `Slider.FirstMatchFrom` keeps the code's arithmetic.

## Model

| member | source | states |
|---|---|---|
| `Raster.IsOpaque` | slider_verify.py:45 | a pixel belongs to a shape when its alpha exceeds 128, the test `a > 128` (also at lines 83-84) |
| `Slider.OpaqueInRow` | slider_verify.py:43-46 | the pixels collected from one row, from a column on, are exactly that row's pixels with alpha > 128, each with its own position and RGB |
| `Slider.OpaqueFromRow` | slider_verify.py:42-46 | the pixels collected from one row downwards are exactly the opaque pixels of those rows |
| `Slider.OpaquePixels` | slider_verify.py:39-50 | `opaque_pixels` holds exactly the cutout pixels with alpha > 128, with their own (x, y, r, g, b); it is empty exactly when no cutout pixel is opaque |
| `Slider.PairLess` | slider_verify.py:53-54 | Python's lexicographic `<` on the integer pairs the sort keys are |
| `Slider.TopLeftKey` | slider_verify.py:53 | the sort key `(p[0], p[1])`, that is `(x, y)` |
| `Slider.BottomLeftKey` | slider_verify.py:54 | the sort key `(p[0], -p[1])`, that is `(x, -y)` |
| `Slider.FirstMinIndex` | slider_verify.py:53-54 | `sorted(ps, key)[0]` under a stable sort: no element's key is below the chosen one, and every earlier element's key is strictly above it |
| `Slider.TopLeft` | slider_verify.py:53 | `p1` is an opaque pixel, and no opaque pixel has a smaller x, or the same x and a smaller y |
| `Slider.BottomLeft` | slider_verify.py:54 | `p2` is an opaque pixel, and no opaque pixel has a smaller x, or the same x and a larger y |
| `Slider.AnchorsSelected` | slider_verify.py:48-54 | when the cutout has an opaque pixel, the selected `p1` and `p2` satisfy the reference definitions of the top and bottom anchors |
| `Slider.AnchorsUnique` | slider_verify.py:53-54 | each reference definition holds of at most one pixel; with `Slider.AnchorsSelected`, exactly one when the cutout has an opaque pixel, so the anchors are well defined |
| `Slider.AnchorsShareColumn` | slider_verify.py:53-70 | both anchors lie in the same (leftmost) column and `y_diff = p2.y - p1.y >= 0`; the anchors coincide exactly when that column holds a single opaque pixel |
| `Slider.FirstMatchFrom` | slider_verify.py:71-86 | the scan reads only in-bounds pixels; a returned column lies in the background and matches both anchors, and no earlier column matches; nothing is returned exactly when no column matches |
| `Slider.ProbeMatches` | slider_verify.py:83-84 | a probed background pixel matches an anchor when its alpha exceeds 128 and its RGB equals the anchor's |
| `Slider.AnchorBelowBackground` | slider_verify.py:72-75 | if `p1.y >= whole_h`, every column is skipped and the scan finds no match |
| `Slider.Resolve` | slider_verify.py:39-90 | "no opaque pixels" exactly when no cutout pixel has alpha > 128; otherwise, for the anchors of the reference definition, a match is the least matching column and lies below `whole_w`, and "no match" occurs exactly when no column in `[0, whole_w)` matches (never a default 0 or the last column) |
| `Slider.SinglePixelExample` | slider_verify.py:39-90 | a cutout whose only opaque pixel is at (5, 5), against a background whose only pixel of that colour is at (20, 5), resolves to column 20 |
| `Text.IsDigit` | math_captcha.py:87 | the characters `\d` matches, taken as the ASCII digits `0`-`9` |
| `Text.HasPrefix` | math_captcha.py:61 | `s.startswith(prefix)` |
| `Text.ContainsFrom` | math_captcha.py:83 | substring search from an index succeeds exactly when the string occurs at that index or later |
| `Text.Contains` | math_captcha.py:83 | `marker in raw_result` holds exactly when the marker occurs at some index |
| `Text.DigitsAvoid` | math_captcha.py:82-85 | a string of digits contains no string whose first character is not a digit |
| `Text.Split` | math_captcha.py:62-63 | `s.split(sep)` gives at least one piece, and no piece contains the separator |
| `Text.JoinSplit` | math_captcha.py:62-63 | joining the pieces of `s.split(sep)` with `sep` gives back `s` |
| `Text.SplitNoSeparator` | math_captcha.py:62-63 | a string without the separator splits into itself alone, so index 1 does not exist |
| `Text.SplitAtFirst` | math_captcha.py:62-63 | the text before the first separator is the first piece; the rest splits on its own |
| `Text.Field` | math_captcha.py:62-71 | `s.split(sep)[k]`, or the `IndexError` that leads to `(None, None)`; a present piece holds no separator |
| `Text.FirstFieldBounds` | math_captcha.py:62 | `s.split(sep)[0]` is the text up to the first separator, or all of `s` |
| `Text.SecondFieldBounds` | math_captcha.py:62-63 | `s.split(sep)[1]` is the text between the first separator and the next separator (or the end) |
| `Text.SecondFieldExists` | math_captcha.py:62-71 | `s.split(sep)[1]` exists exactly when `s` contains the separator |
| `Text.FirstFieldUnique` | math_captcha.py:62 | the first piece of a split ends at one index only |
| `MathCaptcha.DigitRunSpans` | math_captcha.py:87 | the matches of `\d+` found from a resume point are maximal digit runs, in increasing order, with no digit after the last; every maximal run starting at or after the resume point is among them; there are none exactly when no digit remains |
| `MathCaptcha.DigitRuns` | math_captcha.py:87 | `re.findall(r'\d+', s)` yields non-empty digit strings, and none exactly when `s` has no digit |
| `MathCaptcha.DigitRunsCoverRuns` | math_captcha.py:87 | `findall` yields one string per span `DigitRunSpans` finds, so one per maximal digit run; every string `findall` yields is the text of a maximal digit run, the text of every maximal digit run is among them, and the last one is the text of the last maximal run |
| `MathCaptcha.AbnormalMarkers` | math_captcha.py:82 | the six abnormal marker strings, the five Chinese ones written as Unicode escapes |
| `MathCaptcha.MarkersStartWithNonDigit` | math_captcha.py:82 | there are six markers, each non-empty and starting with a character that is not a digit |
| `MathCaptcha.HasAbnormalMarker` | math_captcha.py:83 | `any(marker in raw_result for marker in abnormal_markers)`, with `in` as `Text.Contains` |
| `MathCaptcha.Clean` | math_captcha.py:73-92 | an empty answer or one containing any of the six markers gives `None`, even with digits present; otherwise the result is `None` exactly when there is no digit, and a present result is a non-empty digit string that occurs in the input and is its last maximal digit run |
| `MathCaptcha.LastDigitRunUnique` | math_captcha.py:87-89 | a string has at most one last maximal digit run, so `numbers[-1]` is determined by the reference definition |
| `MathCaptcha.DigitsHaveNoMarker` | math_captcha.py:82-85 | a digit string contains none of the abnormal markers |
| `MathCaptcha.CleanDigits` | math_captcha.py:79-89 | a non-empty digit string cleans to itself |
| `MathCaptcha.CleanIdempotent` | math_captcha.py:73-92 | cleaning a cleaned answer returns it unchanged |
| `MathCaptcha.Header` | math_captcha.py:62 | `src.split(';')[0]` is the prefix of `src` up to its first `;`, or all of `src` |
| `MathCaptcha.SplitImageSource` | math_captcha.py:59-71 | a source not starting with `data:image` takes the screenshot branch; otherwise it gives `(None, None)` exactly when the header has no `/` or the source no `,`; else the format is the header's segment between the first and second `/`, the payload is the segment between the first and second `,`, and neither holds its separators |
| `MathCaptcha.DataUri` | math_captcha.py:115 | the inline source `f"data:image/{img_format};base64,{base64_img}"` |
| `MathCaptcha.DataUriHeader` | math_captcha.py:115 | `src.split(';')[0]` of the line-115 inline source is `data:image/` followed by the format, when the format holds no `;` |
| `MathCaptcha.DataUriRoundTrip` | math_captcha.py:115 | splitting the inline source `f"data:image/{img_format};base64,{base64_img}"` recovers the format and payload when the format holds none of `/ ; ,` and the payload no `,` |
| `MathCaptcha.PngExample` | math_captcha.py:61-63 | `data:image/png;base64,XYZ` yields the format `png` and the payload `XYZ` |

## Left out

- Image decoding (slider_verify.py:30-37, 64-67): the `data:image/` test of the cutout source (a further `False` return of `slider_verification`, taken before any pixel is read) is left out together with base64 decoding and the PIL conversion to RGBA, because the model takes decoded images.
- Scale and drag arithmetic (slider_verify.py:95-113): `page_img_w / whole_w` and the `+3` compensation are Python floats over element geometry read from the browser.
- Drag synthesis (slider_verify.py:116-125): the 0.7 / 0.25 / 0.05 steps are float products, and the gesture and the sleep are side effects through the browser.
- Element lookups and the catch-all `except` of `slider_verification` (slider_verify.py:24-29, 61-63, 129-131): browser I/O. The model has no exception path other than its three outcomes.
- `get_valid_captcha_result` (math_captcha.py:135-179): an unbounded retry loop driven by `random.uniform`, `time.sleep` and page refreshes.
- `refresh_captcha`, `auto_fill_captcha_and_submit` and `is_login_successful` (math_captcha.py:17-45, 181-236): browser I/O only.
- The screenshot branch and the load wait of `get_captcha_base64` (math_captcha.py:55-59, 64-67): browser I/O. `SplitImageSource` reports that branch as `NotDataUri`.
- `recognize_captcha_with_llm` (math_captcha.py:94-133): a network call. Only the inline source it builds (line 115) is modelled, as `DataUri`.
- img_captcha.py is not part of this model: it is a wrapper over an OCR library and the browser, with no logic of its own.
- MathCaptcha.Clean: `\d` is taken to match the ASCII digits `0`-`9` only, whereas Python's `re` also matches other Unicode decimal digits.
- MathCaptcha.Clean: the input is a string. A `None` answer, which `not raw_result` also rejects, is not modelled.
- MathCaptcha.SplitImageSource: the source is a string. The `None` that `get_attribute('src')` can return, which would raise inside the `try` and give `(None, None)`, is not modelled.
