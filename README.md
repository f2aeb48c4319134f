# Forex cross-rate service: a Dafny model

application.py is a small Flask service that answers "how much is one unit of
currency `base` worth in currency `symbols`" by asking an upstream forex
provider that only publishes EUR-based rates, and deriving the wanted rate
through EUR as the pivot currency. This project models its logic:

- `rate_calculator`, the cross-rate rule, as `Application.RateCalculator` over
  `real`. Its contract says what a cross rate is: `r * PerEur(s, r1) ==
  PerEur(t, r2)`. That is, one EUR's worth of the source (`PerEur(s, r1)`
  units) converts at `r` into one EUR's worth of the target (`PerEur(t, r2)`
  units), with EUR's own rate taken as 1. The lemmas state the four cases of the
  source, that the result is unique, that a round trip gives 1, and that rates
  from one table compose.
- `sigfig`, the version-2 truncation, as `Application.SigFig` on the TEXT of
  a number. It computes `text[:text.find('.') + fig + 1]` with Python's `find`
  and slicing rules (module `PyStr`). It keeps the author's admitted imprecision
  exactly. It counts places after the '.', not significant digits. It truncates
  and does not round. On the text of a float in exponent form it cuts the
  exponent off (`7.42312345e-05` becomes `7.423123`), cuts a digit off it
  (`1.234e-05` becomes `1.234e-0`), or leaves it without digits (`2.1234e-05`
  becomes `2.1234e-`, which `float()` rejects).
- `rate_core`, the pipeline, as `Application.RateCore`. It returns a `Result`
  with the error variants `MissingKey` and `UpstreamFailed` for its own two
  exceptions, and `NotANumber` for the `ValueError` that `float()` raises when
  the version-2 truncation leaves no number. The HTTP GET is the parameter
  `fetch`, from endpoint and query parameters to a `Response` (status plus
  rate table). Python's `str(float)` is the parameter `show`, and `float()` of
  a text is the parameter `parse`, `None` where it raises. The version defaults
  to 1, as in the source. Version 1 yields `Raw(rate)`. Every other version
  yields `Truncated(text, value)`: the text that `sigfig` hands to `float()`,
  and the value parsed from it.

The route comments (application.py:127-129, 164-166) call "latest" the latest
API version. Yet `/api/latest/current` calls `rate_core` without a version, so
it gets version 1 (lines 168-175). Only `/api/latest/historical` passes 2
(lines 131-144). The routes are not part of this model.

`RateCalculator` requires a non-zero `r1` only when the source is not EUR,
because Python divides by `r1` only in those two branches. `RateCore` requires
what its comment at lines 73-76 takes for granted of a successful response:
both codes are in the rate table. The model adds that a non-EUR source's rate
is non-zero. Outside these conditions the Python code raises `KeyError` or
`ZeroDivisionError`.

## Model

| member | source | states |
|---|---|---|
| `PyStr.Find` | application.py:44 | `str.find`: -1 exactly when the character is absent, otherwise an index holding it with no earlier occurrence |
| `PyStr.SliceTo` | application.py:44 | `s[:stop]` is always a prefix; its length is `min(stop, len)` for a non-negative stop and `max(0, len + stop)` for a negative one |
| `PyStr.FindInPrefix` | application.py:44 | a prefix that keeps the first occurrence finds it at the same index |
| `Application.RateCalculator` | application.py:103-120 | the derived rate satisfies the pivot equation `r * PerEur(s, r1) == PerEur(t, r2)`; only a non-EUR source needs `r1 != 0` |
| `Application.RateIsUnique` | application.py:103-120 | the derived rate is the only value satisfying the pivot equation |
| `Application.RateBothEur` | application.py:105-108 | EUR to EUR is exactly 1, whatever r1 and r2 are |
| `Application.RateFromEur` | application.py:105-111 | from EUR to another currency the result is r2 verbatim and does not depend on r1 |
| `Application.RateToEur` | application.py:112-115 | from another currency to EUR the result is 1/r1 and does not depend on r2 |
| `Application.RateCross` | application.py:116-118 | between two non-EUR currencies the result is r2/r1, equal to (1/r1)/(1/r2) when r2 is non-zero |
| `Application.RateSameCurrency` | application.py:103-120 | a currency converted into itself with one table entry gives 1 |
| `Application.RateInverse` | application.py:87-120 | converting s to t and t back to s multiplies to 1 |
| `Application.RateChain` | application.py:87-120 | rates from one table compose: a to b times b to c is a to c |
| `Application.SigFig` | application.py:29-44 | the result is a prefix of the text; with a '.' the first '.' is kept and exactly `min(fig, places)` characters follow it; without one the first `fig` characters are kept |
| `Application.SigFigDefault` | application.py:29 | the default `fig` is 6 |
| `Application.SigFigPlaces` | application.py:42-44 | with a '.', the '.' survives, at most `fig` characters follow it, and the result is `text[..min(len, p + fig + 1)]` |
| `Application.SigFigShortUnchanged` | application.py:42-44 | text with `fig` or fewer places comes back unchanged |
| `Application.SigFigNoPoint` | application.py:42-44 | without a '.', the first `fig` characters are kept |
| `Application.SigFigNegative` | application.py:42-44 | a negative `fig` cuts at or before the '.'; once the stop itself is negative, Python counts it from the end of the text |
| `Application.SigFigIdempotent` | application.py:42-44 | truncating twice with the same non-negative `fig` equals truncating once |
| `Application.SigFigCutsPlaces` | application.py:42-44 | `123.4567891` becomes `123.456789` |
| `Application.SigFigKeepsShort` | application.py:42-44 | `123.456789` and `1.3` come back unchanged |
| `Application.SigFigSmallRate` | application.py:30-41 | `0.0074231` becomes `0.007423`: leading zeros use up places, as the comment admits |
| `Application.SigFigExponentForm` | application.py:30-44 | `7.42312345e-05` becomes `7.423123`, losing its exponent; `1e-05` has no '.' and is kept |
| `Application.FractionPrefix` | application.py:42-44 | keeping the first k fraction digits never raises their value and loses less than 10^-k |
| `Application.PointOfNumeral` | application.py:44 | in a numeral of plain digits the first '.' found is the one after the integer part |
| `Application.SigFigTruncatesValue` | application.py:29-44 | on a numeral `ip.fp`, the integer part is kept and the first `fig` fraction digits are kept; the value left is at most the original and less than 10^-fig below it, so the function truncates and does not round |
| `Application.SigFigCutsExponent` | application.py:42-44 | `2.1234e-05` becomes `2.1234e-`, an exponent without digits; `1.234e-05` becomes `1.234e-0` |
| `Application.RateCore` | application.py:60-82 | missing key fails exactly when the key is absent; the upstream error occurs exactly when the key is present and the status is not 200; `NotANumber` only follows a successful fetch for a version other than 1; a raw result occurs exactly for version 1 and satisfies the pivot equation; a truncated result is a prefix of the rate's text, and `float()` parses it to the value returned |
| `Application.VersionDefault` | application.py:60 | leaving the version out is version 1, and a success is then the raw rate |
| `Application.MissingKeyBeforeFetch` | application.py:62-66 | a missing key fails with `MissingKey` whatever the fetch would answer, so the fetch is never consulted |
| `Application.OneFetch` | application.py:65-70 | the result depends only on the one GET with `access_key` and `base=EUR` |
| `Application.UpstreamFailure` | application.py:68-69 | any status other than 200 fails with `UpstreamFailed` in every version |
| `Application.VersionOneRaw` | application.py:73-79 | version 1 returns `rate_calculator(s, t, rates[s], rates[t])` unchanged |
| `Application.OtherVersionTruncated` | application.py:78-82 | any other version truncates the rate's text to 6 places, and truncating it again changes nothing; it succeeds with the parsed value exactly when `float()` accepts that text, and fails with `NotANumber` otherwise |
| `Application.ExponentCutFails` | application.py:80-82 | a version-2 rate whose text is `2.1234e-05` fails with `NotANumber`, because `float()` rejects `2.1234e-` |
| `Application.SameCurrencyIsOne` | application.py:73-79 | the same code on both sides gives exactly 1 under version 1 |

## Left out

- Flask routing, query-argument parsing, `render_template` and the response f-strings (application.py:122-176): web plumbing with no logic beyond choosing an endpoint and a version.
- `requests.get` and `res.json()`: network I/O. They are the parameter `fetch`, a total function from endpoint and query parameters to status and rate table. Timeouts, malformed bodies and exceptions from the HTTP client are not modelled.
- `str(float)` and `float(str)`: IEEE-754 formatting, parsing and rounding. Rates are `real`. Python's `str` of a float is the parameter `show`. Python's `float()` of a text is the parameter `parse`, with `None` standing for its `ValueError`. The model does not state which texts `float()` accepts.
- Application.RateCore: the `KeyError` for a code missing from the table and the `ZeroDivisionError` for a zero source rate are excluded by the requires and not modelled as errors, because the source does not handle them.
- The endpoint constants and the historical-date URL concatenation (application.py:26-27, 137, 154): configuration that only fixes the `api` argument.
