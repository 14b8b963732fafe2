/**
 * Worked records: a statistics record and a failures record as Locust writes
 * them, and the gauge values one scrape derives from them.
 */
module ScrapeExamples {
  import opened ParseFloat
  import opened ScrapeSpec

  /** A column holding the numeral of n reads as n. */
  lemma NumeralColumn(fields: seq<string>, i: nat, n: nat)
    requires i < |fields| && fields[i] == NumeralText(n)
    ensures GetFloat64Element(fields, i) == Finite(n as real)
  {
    ParseNumOfNumeral(n);
  }

  /** A column holding n tenths with one fraction digit reads as n / 10. */
  lemma TenthsColumn(fields: seq<string>, i: nat, n: nat)
    requires i < |fields| && fields[i] == TenthsText(n)
    ensures GetFloat64Element(fields, i) == Finite(n as real / 10.0)
  {
    ParseNumOfTenths(n);
  }

  // The numerals the example records are written with.

  lemma Texts100And120() ensures NumeralText(100) == "100" && NumeralText(120) == "120" {}

  lemma Texts130And110() ensures NumeralText(130) == "130" && NumeralText(110) == "110" {}

  lemma Texts900And180() ensures NumeralText(900) == "900" && NumeralText(180) == "180" {}

  lemma Texts512And50() ensures NumeralText(512) == "512" && NumeralText(50) == "50" {}

  lemma Texts2And7() ensures NumeralText(2) == "2" && NumeralText(7) == "7" {}

  lemma TenthsTexts() ensures TenthsText(105) == "10.5" && TenthsText(2) == "0.2" {}

  /** A Locust statistics record: `GET,/login,100,2,120,130,50,900,512,10.5,0.2,110,,,,,180`. */
  const LoginRecord: seq<string> :=
    ["GET", "/login", "100", "2", "120", "130", "50", "900", "512", "10.5", "0.2", "110", "", "", "", "", "180"]

  /** A Locust failures record: `POST,/cart,Connection refused,7`. */
  const CartFailure: seq<string> := ["POST", "/cart", "Connection refused", "7"]

  /** The request families `r` with each one set at ("GET", "/login") to the value the login record carries for it. */
  function LoginFamilies(r: RequestFamilies): RequestFamilies {
    var k := ("GET", "/login");
    r.(
      numRequests := r.numRequests[k := Finite(100.0)],
      numFailures := r.numFailures[k := Finite(2.0)],
      medianResponseTime := r.medianResponseTime[k := Finite(120.0)],
      avgResponseTime := r.avgResponseTime[k := Finite(130.0)],
      minResponseTime := r.minResponseTime[k := Finite(50.0)],
      maxResponseTime := r.maxResponseTime[k := Finite(900.0)],
      avgContentLength := r.avgContentLength[k := Finite(512.0)],
      currentRps := r.currentRps[k := Finite(10.5)],
      currentFailPerSec := r.currentFailPerSec[k := Finite(0.2)],
      percentile50 := r.percentile50[k := Finite(110.0)],
      percentile95 := r.percentile95[k := Finite(180.0)])
  }

  /** `LoginRecord` sets the eleven request families at ("GET", "/login") and changes nothing else. */
  lemma StatsRowExample(m: Metrics, fields: seq<string>)
    requires fields == LoginRecord
    ensures ApplyStatsRow(m, fields) == m.(requests := LoginFamilies(m.requests))
  {
    LoginRow(m, fields);
  }

  /** Any record whose cells are those of `LoginRecord` in the columns `scrape` reads. */
  lemma LoginRow(m: Metrics, fields: seq<string>)
    requires |fields| == 17 && fields[0] == "GET" && fields[1] == "/login"
    requires fields[2] == "100" && fields[3] == "2" && fields[4] == "120" && fields[5] == "130"
    requires fields[6] == "50" && fields[7] == "900" && fields[8] == "512" && fields[9] == "10.5"
    requires fields[10] == "0.2" && fields[11] == "110" && fields[16] == "180"
    ensures ApplyStatsRow(m, fields) == m.(requests := LoginFamilies(m.requests))
  {
    assert fields[0] != "Type" && fields[0] != "None";
    ExampleCounts(fields);
    ExampleLatencies(fields);
    ExamplePercentiles(fields);
    ExampleRates(fields);
  }

  lemma ExampleCounts(fields: seq<string>)
    requires |fields| == 17 && fields[2] == "100" && fields[3] == "2" && fields[8] == "512"
    ensures GetFloat64Element(fields, 2) == Finite(100.0) && GetFloat64Element(fields, 3) == Finite(2.0)
    ensures GetFloat64Element(fields, 8) == Finite(512.0)
  {
    Texts100And120();
    Texts2And7();
    Texts512And50();
    NumeralColumn(fields, 2, 100);
    NumeralColumn(fields, 3, 2);
    NumeralColumn(fields, 8, 512);
  }

  lemma ExampleLatencies(fields: seq<string>)
    requires |fields| == 17 && fields[4] == "120" && fields[5] == "130" && fields[6] == "50" && fields[7] == "900"
    ensures GetFloat64Element(fields, 4) == Finite(120.0) && GetFloat64Element(fields, 5) == Finite(130.0)
    ensures GetFloat64Element(fields, 6) == Finite(50.0) && GetFloat64Element(fields, 7) == Finite(900.0)
  {
    Texts100And120();
    Texts130And110();
    Texts512And50();
    Texts900And180();
    NumeralColumn(fields, 4, 120);
    NumeralColumn(fields, 5, 130);
    NumeralColumn(fields, 6, 50);
    NumeralColumn(fields, 7, 900);
  }

  lemma ExamplePercentiles(fields: seq<string>)
    requires |fields| == 17 && fields[11] == "110" && fields[16] == "180"
    ensures GetFloat64Element(fields, 11) == Finite(110.0) && GetFloat64Element(fields, 16) == Finite(180.0)
  {
    Texts130And110();
    Texts900And180();
    NumeralColumn(fields, 11, 110);
    NumeralColumn(fields, 16, 180);
  }

  lemma ExampleRates(fields: seq<string>)
    requires |fields| == 17 && fields[9] == "10.5" && fields[10] == "0.2"
    ensures GetFloat64Element(fields, 9) == Finite(10.5) && GetFloat64Element(fields, 10) == Finite(0.2)
  {
    TenthsTexts();
    TenthsColumn(fields, 9, 105);
    TenthsColumn(fields, 10, 2);
  }

  /** The count `CartFailure` sets, and nothing else it changes. */
  lemma FailuresRowExample(m: Metrics, fields: seq<string>)
    requires fields == CartFailure
    ensures ApplyFailuresRow(m, fields) == m.(errors := m.errors[("POST", "/cart", "Connection refused") := Finite(7.0)])
  {
    Texts2And7();
    NumeralColumn(fields, 3, 7);
    assert fields[0] != "Method";
  }

  /** A column written with a digit separator, `1_000`, reads as one thousand. */
  lemma SeparatedColumnExample(fields: seq<string>)
    requires |fields| == 17 && fields[2] == "1_000"
    ensures GetFloat64Element(fields, 2) == Finite(1000.0)
  {
    var a, b := fields[2][..1], fields[2][2..];
    ThousandParts(fields[2]);
    ThousandValue(a, b);
    SeparatedColumn(fields, 2, a, b);
  }

  /** A column holding two runs of digits joined by `_` reads as the digits joined. */
  lemma SeparatedColumn(fields: seq<string>, i: nat, a: string, b: string)
    requires i < |fields| && |a| > 0 && |b| > 0 && AllDigits(a) && AllDigits(b)
    requires fields[i] == a + "_" + b
    ensures GetFloat64Element(fields, i) == Finite(DigitsValue(a + b) as real)
  {
    SeparatedDigits(a, b);
  }

  lemma ThousandParts(s: string)
    requires s == "1_000"
    ensures s[..1] == "1" && s[2..] == "000" && s == s[..1] + "_" + s[2..]
  {
  }

  lemma ThousandValue(a: string, b: string)
    requires a == "1" && b == "000"
    ensures AllDigits(a) && AllDigits(b) && AllDigits(a + b) && DigitsValue(a + b) == 1000
  {
    assert a + b == NumeralText(1000);
  }
}
