/**
 The rate service of application.py: the cross-rate rule through EUR
 (`rate_calculator`), the textual truncation of the version-2 API (`sigfig`)
 and the request pipeline (`rate_core`), with the HTTP fetch and Python's
 `str(float)` taken as parameters.
 */
module Application {
  import opened PyStr

  /** The pivot currency: the upstream provider only publishes EUR-based rates. */
  const Eur: string := "EUR"

  /** Number of places kept after the '.' when the caller gives none, and by API version 2. */
  const DefaultFigures: int := 6

  datatype Option<T> = None | Some(value: T)

  /**
   The failures of `rate_core`: its two own exceptions, and the `ValueError`
   of `float()` when the version-2 truncation leaves text that is no number.
   */
  datatype Error = MissingKey | UpstreamFailed | NotANumber

  datatype Result<T> = Ok(value: T) | Err(error: Error)

  /** What the upstream GET yields: its HTTP status and the `rates` object of its JSON body. */
  datatype Response = Response(status: int, rates: map<string, real>)

  /** A rate as API version 1 returns it, or the truncated text version 2 parses back and the value parsed. */
  datatype Quote = Raw(rate: real) | Truncated(text: string, value: real)

  // ---------------------------------------------------------------------------
  // Cross-rate derivation

  /** How much of currency `c` one EUR buys, given the table's entry `r` for `c`; EUR itself is 1. */
  function PerEur(c: string, r: real): real
  {
    if c == Eur then 1.0 else r
  }

  /**
   `rate_calculator`: one `source` is worth `r` `target`, from the EUR rates
   `r1` (EUR to source) and `r2` (EUR to target). The contract is the defining
   equation of a cross rate through the pivot: one EUR's worth of the source,
   `PerEur(sourceCurr, r1)` units, converts at `r` into one EUR's worth of the target.
   Python divides by `r1` only when the source is not EUR, so only then must it be non-zero.
   */
  function RateCalculator(sourceCurr: string, targetCurr: string, r1: real, r2: real): (r: real)
    requires sourceCurr != Eur ==> r1 != 0.0
    ensures r * PerEur(sourceCurr, r1) == PerEur(targetCurr, r2)
  {
    if sourceCurr == Eur then
      if targetCurr == Eur then 1.0 else r2
    else
      if targetCurr == Eur then 1.0 / r1 else r2 / r1
  }

  /** The contract above pins the rate down: it is the only value satisfying the pivot equation. */
  lemma RateIsUnique(sourceCurr: string, targetCurr: string, r1: real, r2: real, x: real)
    requires sourceCurr != Eur ==> r1 != 0.0
    requires x * PerEur(sourceCurr, r1) == PerEur(targetCurr, r2)
    ensures x == RateCalculator(sourceCurr, targetCurr, r1, r2)
  {
    var r := RateCalculator(sourceCurr, targetCurr, r1, r2);
    var p := PerEur(sourceCurr, r1);
    assert p != 0.0;
    assert (x - r) * p == 0.0;
  }

  /** 1 EUR is 1 EUR, whatever the table says. */
  lemma RateBothEur(r1: real, r2: real)
    ensures RateCalculator(Eur, Eur, r1, r2) == 1.0
  {
  }

  /** From EUR the table's rate is used verbatim, and `r1` plays no part. */
  lemma RateFromEur(targetCurr: string, r1: real, r1': real, r2: real)
    requires targetCurr != Eur
    ensures RateCalculator(Eur, targetCurr, r1, r2) == r2
    ensures RateCalculator(Eur, targetCurr, r1, r2) == RateCalculator(Eur, targetCurr, r1', r2)
  {
  }

  /** Into EUR the rate is the inverse of the table's, and `r2` plays no part. */
  lemma RateToEur(sourceCurr: string, r1: real, r2: real, r2': real)
    requires sourceCurr != Eur && r1 != 0.0
    ensures RateCalculator(sourceCurr, Eur, r1, r2) == 1.0 / r1
    ensures RateCalculator(sourceCurr, Eur, r1, r2) == RateCalculator(sourceCurr, Eur, r1, r2')
  {
  }

  /** Between two other currencies the rate is `r2/r1`, which is (1/r1)/(1/r2) when `r2` is non-zero. */
  lemma RateCross(sourceCurr: string, targetCurr: string, r1: real, r2: real)
    requires sourceCurr != Eur && targetCurr != Eur && r1 != 0.0
    ensures RateCalculator(sourceCurr, targetCurr, r1, r2) == r2 / r1
    ensures r2 != 0.0 ==> RateCalculator(sourceCurr, targetCurr, r1, r2) == (1.0 / r1) / (1.0 / r2)
  {
    if r2 != 0.0 {
      assert (1.0 / r1) / (1.0 / r2) == r2 / r1;
    }
  }

  /** A currency converted into itself is worth 1 when the same table entry is used twice. */
  lemma RateSameCurrency(c: string, r: real)
    requires c != Eur ==> r != 0.0
    ensures RateCalculator(c, c, r, r) == 1.0
  {
  }

  /** Converting there and back again is the identity. */
  lemma RateInverse(s: string, t: string, rs: real, rt: real)
    requires s != Eur ==> rs != 0.0
    requires t != Eur ==> rt != 0.0
    ensures RateCalculator(s, t, rs, rt) * RateCalculator(t, s, rt, rs) == 1.0
  {
    var a := RateCalculator(s, t, rs, rt);
    var b := RateCalculator(t, s, rt, rs);
    var ps, pt := PerEur(s, rs), PerEur(t, rt);
    assert a * ps == pt && b * pt == ps;
    assert (a * b) * pt == a * (b * pt) == a * ps == pt;
    assert pt != 0.0;
  }

  /** Rates derived from one table compose: going from `a` to `b` and on to `c` is going from `a` to `c`. */
  lemma RateChain(a: string, b: string, c: string, ra: real, rb: real, rc: real)
    requires a != Eur ==> ra != 0.0
    requires b != Eur ==> rb != 0.0
    ensures RateCalculator(a, b, ra, rb) * RateCalculator(b, c, rb, rc) == RateCalculator(a, c, ra, rc)
  {
    var x := RateCalculator(a, b, ra, rb);
    var y := RateCalculator(b, c, rb, rc);
    var pa, pb, pc := PerEur(a, ra), PerEur(b, rb), PerEur(c, rc);
    assert x * pa == pb && y * pb == pc;
    assert (x * y) * pa == pc by {
      assert (x * y) * pa == y * (x * pa);
    }
    RateIsUnique(a, c, ra, rc, x * y);
  }

  // ---------------------------------------------------------------------------
  // Textual truncation

  /**
   `sigfig` on the text of a number: keep everything up to `fig` characters
   past the first '.'. Despite its name it counts places after the point, not
   significant digits, and it truncates instead of rounding. With no '.' the
   find yields -1, so the stop is `fig` itself.
   */
  function SigFig(text: string, fig: int := DefaultFigures): (r: string)
    ensures r <= text
    ensures 0 <= fig && '.' in text ==>
      Find(r, '.') == Find(text, '.') &&
      |r| - Find(text, '.') - 1 == Min(fig, |text| - Find(text, '.') - 1)
    ensures 0 <= fig && '.' !in text ==> |r| == Min(fig, |text|)
  {
    var r := SliceTo(text, Find(text, '.') + fig + 1);
    if 0 <= fig && '.' in text then
      FindInPrefix(text, '.', |r|);
      r
    else
      r
  }

  /** The version-2 call `sigfig(rate, 6)` is the one with the default number of places. */
  lemma SigFigDefault(text: string)
    ensures SigFig(text) == SigFig(text, 6)
  {
  }

  /** With a '.', at most `fig` characters survive after it, and the '.' itself survives. */
  lemma SigFigPlaces(text: string, fig: nat)
    requires '.' in text
    ensures '.' in SigFig(text, fig)
    ensures |SigFig(text, fig)| <= Find(text, '.') + fig + 1
    ensures SigFig(text, fig) == text[..Min(|text|, Find(text, '.') + fig + 1)]
  {
    var r := SigFig(text, fig);
    var p := Find(text, '.');
    assert r[p] == '.';
  }

  /** A text with `fig` or fewer places after its '.' comes back unchanged. */
  lemma SigFigShortUnchanged(text: string, fig: nat)
    requires '.' in text
    requires |text| - Find(text, '.') - 1 <= fig
    ensures SigFig(text, fig) == text
  {
    var r := SigFig(text, fig);
    assert |r| == |text|;
  }

  /** Without a '.', the first `fig` characters are kept. */
  lemma SigFigNoPoint(text: string, fig: nat)
    requires '.' !in text
    ensures SigFig(text, fig) == text[..Min(fig, |text|)]
  {
  }

  /**
   A negative `fig` cuts at or before the '.', unless the stop itself goes
   negative: then Python counts it from the end of the text, and the '.' may survive.
   */
  lemma SigFigNegative(text: string, fig: int)
    requires fig < 0
    ensures 0 <= Find(text, '.') + fig + 1 ==> '.' !in SigFig(text, fig)
    ensures Find(text, '.') + fig + 1 < 0 ==>
      SigFig(text, fig) == text[..Max(0, |text| + Find(text, '.') + fig + 1)]
    ensures '.' !in text ==> SigFig(text, fig) == text[..Max(0, |text| + fig)]
  {
    var r := SigFig(text, fig);
    if '.' in text && 0 <= Find(text, '.') + fig + 1 {
      assert |r| <= Find(text, '.');
      assert r == text[..|r|];
    }
  }

  /** Truncating twice to the same number of places is truncating once. */
  lemma SigFigIdempotent(text: string, fig: nat)
    ensures SigFig(SigFig(text, fig), fig) == SigFig(text, fig)
  {
    var r := SigFig(text, fig);
    var rr := SigFig(r, fig);
    if '.' in text {
      assert '.' in r by { SigFigPlaces(text, fig); }
    }
    assert |rr| == |r|;
  }

  /** Places beyond the sixth are cut. */
  lemma SigFigCutsPlaces()
    ensures SigFig("123.4567891") == "123.456789"
  {
    assert Find("123.4567891", '.') == 3;
  }

  /** Six places or fewer are kept as they are. */
  lemma SigFigKeepsShort()
    ensures SigFig("123.456789") == "123.456789"
    ensures SigFig("1.3") == "1.3"
  {
    assert Find("123.456789", '.') == 3;
    assert Find("1.3", '.') == 1;
  }

  /** What the comment in `sigfig` admits to: a small rate loses precision to its leading zeros. */
  lemma SigFigSmallRate()
    ensures SigFig("0.0074231") == "0.007423"
  {
    assert Find("0.0074231", '.') == 1;
  }

  /**
   The text of a float in exponent form loses its exponent when the cut falls
   before it, and one without a '.' is cut after six characters.
   */
  lemma SigFigExponentForm()
    ensures SigFig("7.42312345e-05") == "7.423123"
    ensures SigFig("1e-05") == "1e-05"
  {
    assert Find("7.42312345e-05", '.') == 1;
    assert '.' !in "1e-05";
  }

  /**
   A cut inside the exponent leaves either an exponent without digits, text
   that `float()` rejects, or an exponent missing its last digit.
   */
  lemma SigFigCutsExponent()
    ensures SigFig("2.1234e-05") == "2.1234e-"
    ensures SigFig("1.234e-05") == "1.234e-0"
  {
    assert Find("2.1234e-05", '.') == 1;
    assert Find("1.234e-05", '.') == 1;
  }

  // ---------------------------------------------------------------------------
  // What the truncation does to the value of a plain decimal numeral

  predicate IsDigits(d: string)
  {
    forall i :: 0 <= i < |d| ==> '0' <= d[i] <= '9'
  }

  function DigitValue(ch: char): real
  {
    (ch as int - '0' as int) as real
  }

  /** One unit of the `k`-th place after the point, 10^-k. */
  function Place(k: nat): (u: real)
    ensures 0.0 < u <= 1.0
  {
    if k == 0 then 1.0 else Place(k - 1) / 10.0
  }

  /** The value of the digits `d` written after a decimal point. */
  function Fraction(d: string): real
    requires IsDigits(d)
  {
    if d == [] then 0.0 else (DigitValue(d[0]) + Fraction(d[1..])) / 10.0
  }

  lemma {:induction false} FractionBelowOne(d: string)
    requires IsDigits(d)
    ensures 0.0 <= Fraction(d) < 1.0
  {
    if d != [] {
      FractionBelowOne(d[1..]);
    }
  }

  /** Keeping the first `k` fraction digits never raises the value and loses less than one unit of the `k`-th place. */
  lemma {:induction false} FractionPrefix(d: string, k: nat)
    requires IsDigits(d) && k <= |d|
    ensures Fraction(d[..k]) <= Fraction(d) < Fraction(d[..k]) + Place(k)
  {
    if k == 0 {
      assert d[..k] == [];
      FractionBelowOne(d);
    } else {
      assert d[..k][1..] == d[1..][..k - 1];
      FractionPrefix(d[1..], k - 1);
    }
  }

  /** In a numeral `ip.fp` of plain digits the first '.' is the one after the integer part. */
  lemma PointOfNumeral(ip: string, fp: string)
    requires IsDigits(ip)
    ensures Find(ip + "." + fp, '.') == |ip|
  {
    var text := ip + "." + fp;
    var p := Find(text, '.');
    assert text[|ip|] == '.';
  }

  /**
   On a numeral `ip.fp` of plain digits, `sigfig` keeps the integer part and the
   first `fig` fraction digits, so the value it leaves is never above the
   original and less than 10^-fig below it: it truncates toward zero, it does not round.
   */
  lemma SigFigTruncatesValue(ip: string, fp: string, fig: nat)
    requires IsDigits(ip) && IsDigits(fp)
    ensures SigFig(ip + "." + fp, fig) == ip + "." + fp[..Min(fig, |fp|)]
    ensures Fraction(fp[..Min(fig, |fp|)]) <= Fraction(fp) < Fraction(fp[..Min(fig, |fp|)]) + Place(fig)
  {
    var text := ip + "." + fp;
    var k := Min(fig, |fp|);
    PointOfNumeral(ip, fp);
    var r := SigFig(text, fig);
    assert |r| == |ip| + 1 + k;
    assert r == text[..|r|];
    assert text[..|ip| + 1 + k] == ip + "." + fp[..k];
    FractionPrefix(fp, k);
    if k < fig {
      assert fp[..k] == fp;
    }
  }

  // ---------------------------------------------------------------------------
  // The request pipeline

  /** The query parameters of the one upstream GET: the caller's key and the fixed EUR base. */
  function Query(key: string): map<string, string>
  {
    map["access_key" := key, "base" := Eur]
  }

  /**
   What `rate_core` relies on without checking: both codes are in the rate table
   of a successful response (the source's comment guarantees it through the
   EUR defaults), and a non-EUR source's rate is non-zero, since it is divided by.
   */
  predicate Serves(resp: Response, s: string, t: string)
  {
    s in resp.rates && t in resp.rates && (s != Eur ==> resp.rates[s] != 0.0)
  }

  /**
   `rate_core`: fail on a missing key before anything is fetched, fetch once,
   fail on any status but 200, derive the rate from the two table entries and
   return it raw for version 1, the default, or truncated to six places
   and parsed back otherwise. `fetch` stands for the HTTP GET (endpoint and
   query parameters to response), `show` for Python's `str` of a float and
   `parse` for `float()` of a text, `None` where it raises `ValueError`.
   */
  function RateCore(api: string, s: string, t: string, key: Option<string>,
                    fetch: (string, map<string, string>) -> Response,
                    show: real -> string, parse: string -> Option<real>,
                    apiver: int := 1): (r: Result<Quote>)
    requires key.Some? && fetch(api, Query(key.value)).status == 200 ==>
      Serves(fetch(api, Query(key.value)), s, t)
    ensures r == Err(MissingKey) <==> key.None?
    ensures r == Err(UpstreamFailed) <==> key.Some? && fetch(api, Query(key.value)).status != 200
    ensures r == Err(NotANumber) ==> key.Some? && fetch(api, Query(key.value)).status == 200 && apiver != 1
    ensures r.Ok? ==> (r.value.Raw? <==> apiver == 1)
    ensures r.Ok? && r.value.Raw? ==>
      var rates := fetch(api, Query(key.value)).rates;
      r.value.rate * PerEur(s, rates[s]) == PerEur(t, rates[t])
    ensures r.Ok? && r.value.Truncated? ==>
      var rates := fetch(api, Query(key.value)).rates;
      r.value.text <= show(RateCalculator(s, t, rates[s], rates[t])) &&
      parse(r.value.text) == Some(r.value.value)
  {
    if key.None? then Err(MissingKey)
    else
      var res := fetch(api, Query(key.value));
      if res.status != 200 then Err(UpstreamFailed)
      else
        var rate := RateCalculator(s, t, res.rates[s], res.rates[t]);
        if apiver == 1 then Ok(Raw(rate))
        else
          var text := SigFig(show(rate), 6);
          match parse(text)
          case None => Err(NotANumber)
          case Some(v) => Ok(Truncated(text, v))
  }

  /** Leaving the version out asks for version 1, the raw rate. */
  lemma VersionDefault(api: string, s: string, t: string, key: Option<string>,
                       fetch: (string, map<string, string>) -> Response,
                       show: real -> string, parse: string -> Option<real>)
    requires key.Some? && fetch(api, Query(key.value)).status == 200 ==>
      Serves(fetch(api, Query(key.value)), s, t)
    ensures RateCore(api, s, t, key, fetch, show, parse) == RateCore(api, s, t, key, fetch, show, parse, 1)
    ensures RateCore(api, s, t, key, fetch, show, parse).Ok? ==> RateCore(api, s, t, key, fetch, show, parse).value.Raw?
  {
  }

  /** A missing key fails whatever the upstream would have answered: the fetch is never consulted. */
  lemma MissingKeyBeforeFetch(api: string, s: string, t: string, apiver: int,
                              fetch1: (string, map<string, string>) -> Response,
                              fetch2: (string, map<string, string>) -> Response,
                              show: real -> string, parse: string -> Option<real>)
    ensures RateCore(api, s, t, None, fetch1, show, parse, apiver) == Err(MissingKey)
    ensures RateCore(api, s, t, None, fetch1, show, parse, apiver) == RateCore(api, s, t, None, fetch2, show, parse, apiver)
  {
  }

  /** Only the single GET with the caller's key and base EUR matters: fetches that agree on it agree on the result. */
  lemma OneFetch(api: string, s: string, t: string, key: string, apiver: int,
                 fetch1: (string, map<string, string>) -> Response,
                 fetch2: (string, map<string, string>) -> Response,
                 show: real -> string, parse: string -> Option<real>)
    requires fetch1(api, Query(key)) == fetch2(api, Query(key))
    requires fetch1(api, Query(key)).status == 200 ==> Serves(fetch1(api, Query(key)), s, t)
    ensures RateCore(api, s, t, Some(key), fetch1, show, parse, apiver) == RateCore(api, s, t, Some(key), fetch2, show, parse, apiver)
  {
  }

  /** Any status other than 200 fails, whatever the body holds and whichever version is asked for. */
  lemma UpstreamFailure(api: string, s: string, t: string, key: string, apiver: int,
                        fetch: (string, map<string, string>) -> Response,
                        show: real -> string, parse: string -> Option<real>)
    requires fetch(api, Query(key)).status != 200
    ensures RateCore(api, s, t, Some(key), fetch, show, parse, apiver) == Err(UpstreamFailed)
  {
  }

  /** Version 1 returns the derived rate unchanged. */
  lemma VersionOneRaw(api: string, s: string, t: string, key: string,
                      fetch: (string, map<string, string>) -> Response,
                      show: real -> string, parse: string -> Option<real>)
    requires fetch(api, Query(key)).status == 200
    requires Serves(fetch(api, Query(key)), s, t)
    ensures var rates := fetch(api, Query(key)).rates;
      RateCore(api, s, t, Some(key), fetch, show, parse, 1) == Ok(Raw(RateCalculator(s, t, rates[s], rates[t])))
  {
  }

  /**
   Every other version truncates the text of the derived rate to six places,
   which truncating again would not change, and succeeds exactly when
   `float()` accepts that text.
   */
  lemma OtherVersionTruncated(api: string, s: string, t: string, key: string, apiver: int,
                              fetch: (string, map<string, string>) -> Response,
                              show: real -> string, parse: string -> Option<real>)
    requires apiver != 1
    requires fetch(api, Query(key)).status == 200
    requires Serves(fetch(api, Query(key)), s, t)
    ensures var rates := fetch(api, Query(key)).rates;
      var text := SigFig(show(RateCalculator(s, t, rates[s], rates[t])), 6);
      RateCore(api, s, t, Some(key), fetch, show, parse, apiver) ==
        (if parse(text).Some? then Ok(Truncated(text, parse(text).value)) else Err(NotANumber)) &&
      SigFig(text, 6) == text
  {
    var rates := fetch(api, Query(key)).rates;
    SigFigIdempotent(show(RateCalculator(s, t, rates[s], rates[t])), 6);
  }

  /**
   A version-2 request whose rate prints as `2.1234e-05` fails: the cut leaves
   `2.1234e-`, which `float()` rejects.
   */
  lemma ExponentCutFails(api: string, s: string, t: string, key: string,
                         fetch: (string, map<string, string>) -> Response,
                         show: real -> string, parse: string -> Option<real>)
    requires fetch(api, Query(key)).status == 200
    requires Serves(fetch(api, Query(key)), s, t)
    requires var rates := fetch(api, Query(key)).rates;
      show(RateCalculator(s, t, rates[s], rates[t])) == "2.1234e-05"
    requires parse("2.1234e-") == None
    ensures RateCore(api, s, t, Some(key), fetch, show, parse, 2) == Err(NotANumber)
  {
    SigFigCutsExponent();
  }

  /** The same currency on both sides is worth exactly 1 under version 1, whatever the table holds. */
  lemma SameCurrencyIsOne(api: string, c: string, key: string,
                          fetch: (string, map<string, string>) -> Response,
                          show: real -> string, parse: string -> Option<real>)
    requires fetch(api, Query(key)).status == 200
    requires Serves(fetch(api, Query(key)), c, c)
    ensures RateCore(api, c, c, Some(key), fetch, show, parse, 1) == Ok(Raw(1.0))
  {
    var rates := fetch(api, Query(key)).rates;
    RateSameCurrency(c, rates[c]);
  }
}
