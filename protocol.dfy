/** One request line of the prime-checking protocol: the validation chain
    over the parsed value, the numeric policy and the response text. */
module Protocol {
  import opened Wrappers
  import opened JsonValue
  import opened Primality

  /** The reply to a line that fails validation. */
  const Malformed: string := "malformed\n"

  /** The reply to a valid request: the verdict as an unquoted JSON boolean,
      terminated by a single newline. */
  function PrimeResponse(prime: bool): (r: string)
    ensures r != Malformed
    ensures |r| > 0 && r[|r| - 1] == '\n' && '\n' !in r[..|r| - 1]
  {
    "{\"method\":\"isPrime\",\"prime\":" + (if prime then "true" else "false") + "}\n"
  }

  /** What `process_line` yields: whether the session may go on, and the
      line to write back. */
  datatype Reply = Reply(ok: bool, response: string)

  /** The request schema: an object whose `method` is the string "isPrime"
      and whose `number` is numeric; any other keys are free. */
  predicate IsRequest(j: Json) {
    j.Object? && "method" in j.members && "number" in j.members
    && j.members["method"] == String("isPrime")
    && j.members["number"].Number?
  }

  /** An integer within the inclusive range of a 64-bit signed integer. */
  predicate InInt64Domain(x: real) {
    x == x.Floor as real && MinInt64 <= x.Floor <= MaxInt64
  }

  /** `static_cast<int64_t>` on a value it is defined for. */
  function ToInt64(x: real): (k: int64)
    requires InInt64Domain(x)
    ensures k as real == x
  {
    x.Floor as int64
  }

  /** `process_line` applied to the parser's result for the line (None when
      the parser reported an error). The checks run in the source's order;
      the first that fails makes the line malformed. A valid request whose
      number is not an integer, or lies outside the 64-bit signed range, is
      answered `prime:false`. */
  function ProcessLine(parsed: Option<Json>): (r: Reply)
    ensures r.ok <==> r.response != Malformed
    ensures r.ok <==> parsed.Some? && IsRequest(parsed.value)
    ensures r.ok ==> r.response == PrimeResponse(true) || r.response == PrimeResponse(false)
    ensures r.ok ==>
      var x := parsed.value.members["number"].value;
      (r.response == PrimeResponse(true) <==> InInt64Domain(x) && Prime(x.Floor))
  {
    match parsed
    case None => Reply(false, Malformed)
    case Some(jv) =>
      if !jv.Object? then Reply(false, Malformed)
      else if "method" !in jv.members || "number" !in jv.members then Reply(false, Malformed)
      else if !jv.members["method"].String? || jv.members["method"].s != "isPrime" then Reply(false, Malformed)
      else if !jv.members["number"].Number? then Reply(false, Malformed)
      else
        var x := jv.members["number"].value;
        if x != x.Floor as real || x > MaxInt64 as real || x < MinInt64 as real then
          Reply(true, PrimeResponse(false))
        else
          Reply(true, PrimeResponse(Prime(ToInt64(x) as int)))
  }

  /** Keys other than `method` and `number` do not affect the reply. */
  lemma ExtraKeysIgnored(m: map<string, Json>, m': map<string, Json>)
    requires forall k :: k in {"method", "number"} ==> (k in m <==> k in m')
    requires forall k :: k in {"method", "number"} && k in m ==> m[k] == m'[k]
    ensures ProcessLine(Some(Object(m))) == ProcessLine(Some(Object(m')))
  {
    assert "method" in {"method", "number"} && "number" in {"method", "number"};
  }

  /** A `number` holding the integer k in the 64-bit range is answered with
      the primality of k, and one outside the range with `prime:false`. */
  lemma IntegerNumberVerdict(m: map<string, Json>, k: int)
    requires "method" in m && m["method"] == String("isPrime")
    requires "number" in m && m["number"] == Number(k as real)
    ensures ProcessLine(Some(Object(m))) ==
      Reply(true, PrimeResponse(MinInt64 <= k <= MaxInt64 && Prime(k)))
  {
    assert (k as real).Floor == k;
  }

  /** A non-integral `number` is valid but answered `prime:false`. */
  lemma FractionVerdict(m: map<string, Json>, x: real)
    requires "method" in m && m["method"] == String("isPrime")
    requires "number" in m && m["number"] == Number(x)
    requires x != x.Floor as real
    ensures ProcessLine(Some(Object(m))) == Reply(true, PrimeResponse(false))
  {
  }

  /** The range test as written in the source compares against the double
      literal 9223372036854775807.0, which binary64 cannot hold; the literal
      denotes the nearest double, 2^63. */
  const UpperBoundAsWritten: real := 9223372036854775808.0

  /** The range test of lines 71-73 as written: it admits exactly the
      int64 range and, beyond it, 2^63. */
  function InDomainAsWritten(x: real): (b: bool)
    ensures b <==> InInt64Domain(x) || x == UpperBoundAsWritten
  {
    x == x.Floor as real && -9223372036854775808.0 <= x <= UpperBoundAsWritten
  }

  /** The range test as written lets 2^63 through to the cast, which cannot
      represent it, while the intended test rejects it. */
  lemma AsWrittenAdmitsTwoTo63()
    ensures InDomainAsWritten(9223372036854775808.0)
    ensures !InInt64Domain(9223372036854775808.0)
  {
    assert (9223372036854775808.0).Floor == 9223372036854775808;
  }

  /** The gap between neighbouring binary64 values around a natural number
      k: 1 below 2^53, and doubling with every further binary digit. */
  function Spacing(k: nat): (u: nat)
    ensures u >= 1
    ensures k >= 0x10_0000_0000_0000 ==> u * 0x10_0000_0000_0000 <= k
    ensures k >= 0x20_0000_0000_0000 ==> u % 2 == 0
    decreases k
  {
    if k < 0x20_0000_0000_0000 then 1 else 2 * Spacing(k / 2)
  }

  /** Rounding k to c times u, where c is k / u or one more, stays within
      half of u provided the choice of c matches the side of the remainder. */
  lemma NearestMultiple(k: int, u: int, q: int, r: int, c: int)
    requires u >= 1 && k == q * u + r && 0 <= r < u && q >= 0
    requires c == q || c == q + 1
    requires c == q ==> 2 * r <= u
    requires c == q + 1 ==> 2 * r >= u
    ensures c * u >= 0 && (c * u) % u == 0
    ensures 2 * (c * u - k) <= u && 2 * (k - c * u) <= u
  {
    MulAtLeast(u, c, 0);
    if c == q + 1 {
      assert c * u == q * u + u;
    }
    MultipleMod(u, c);
    assert u * c == c * u;
  }

  lemma DivisionParts(k: nat, u: nat)
    requires u >= 1
    ensures k == k / u * u + k % u && 0 <= k % u < u
  {
  }

  /** The multiple of u nearest to k, a tie going to the even multiple. */
  function RoundToMultiple(k: nat, u: nat): (d: nat)
    requires u >= 1
    ensures d % u == 0
    ensures 2 * (d - k) <= u && 2 * (k - d) <= u
  {
    var q, r := k / u, k % u;
    DivisionParts(k, u);
    var c := if 2 * r < u || (2 * r == u && q % 2 == 0) then q else q + 1;
    NearestMultiple(k, u, q, r, c);
    c * u
  }

  /** `json::value_to<double>` on an integer the parser read exactly: the
      nearest binary64 value, a tie going to the even multiple of the
      spacing. Below 2^53 every integer is kept exactly. */
  function ToDouble(k: nat): (d: nat)
    ensures d % Spacing(k) == 0
    ensures 2 * (d - k) <= Spacing(k) && 2 * (k - d) <= Spacing(k)
    ensures k < 0x20_0000_0000_0000 ==> d == k
  {
    RoundToMultiple(k, Spacing(k))
  }

  /** The reply of lines 70-79 as written to a request whose `number` is the
      integer k >= 0: the tests and the primality check see the double. The
      integers from 2^63 - 512 up round to 2^63 itself, which passes the range
      test (see `AsWrittenAdmitsTwoTo63`); there the source's cast at line 76
      is undefined, and this model stands in for it by testing 2^63, which is
      not prime. Below 2^53 the verdict is the integer's own primality;
      above it, `AsWrittenRoundsLargePrimes` shows it is always
      `prime:false`. */
  function IntegerReplyAsWritten(k: nat): (r: Reply)
    ensures r.ok
    ensures k < 0x20_0000_0000_0000 ==> r == Reply(true, PrimeResponse(Prime(k)))
  {
    var d := ToDouble(k);
    if d as real > UpperBoundAsWritten then Reply(true, PrimeResponse(false))
    else Reply(true, PrimeResponse(Prime(d)))
  }

  /** A multiple of an even number is even. */
  lemma EvenMultiple(c: int, u: int)
    requires u % 2 == 0
    ensures (c * u) % 2 == 0
  {
    var w := u / 2;
    assert c * u == 2 * (c * w);
    MultipleMod(2, c * w);
  }

  /** Above 2^53 the conversion yields an even integer greater than 2. */
  lemma AsWrittenDoubleEven(k: nat)
    requires 0x20_0000_0000_0000 < k
    ensures ToDouble(k) % 2 == 0 && ToDouble(k) > 2
  {
    var u, d := Spacing(k), ToDouble(k);
    assert d == d / u * u;
    EvenMultiple(d / u, u);
  }

  /** The prime 9007199254740997 sits halfway between two doubles and
      converts to the even one, 9007199254740996. */
  lemma LargePrimeExampleRounds()
    ensures ToDouble(9007199254740997) == 9007199254740996
  {
    assert Spacing(4503599627370498) == 1;
  }

  /** As written, each integer above 2^53 is answered `prime:false`, while
      the exact reading answers with the integer's own primality. */
  lemma AsWrittenRoundsLargePrimes(m: map<string, Json>, k: nat)
    requires "method" in m && m["method"] == String("isPrime")
    requires "number" in m && m["number"] == Number(k as real)
    requires 0x20_0000_0000_0000 < k <= MaxInt64
    ensures IntegerReplyAsWritten(k) == Reply(true, PrimeResponse(false))
    ensures ProcessLine(Some(Object(m))) == Reply(true, PrimeResponse(Prime(k)))
  {
    IntegerNumberVerdict(m, k);
    AsWrittenDoubleEven(k);
  }

}
