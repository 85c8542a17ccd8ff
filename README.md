# Prime-checking session, modelled in Dafny

This project models the per-connection logic of a line-oriented TCP service. A client sends JSON requests, one per
`\n`-terminated line, such as `{"method":"isPrime","number":13}`. The server answers each one with
`{"method":"isPrime","prime":true}` or `{"method":"isPrime","prime":false}`. A line that is not such a request
gets `malformed` and the connection closes. All of this lives in `Session` in 01_prime.cpp:

- **Primality** (`primality.dfy`, `is_prime`): a 6k ± 1 trial-division loop, proved equal to the mathematical
  definition of a prime.
- **Protocol** (`protocol.dfy`, `process_line`): the short-circuiting validation chain over the parsed JSON value,
  the numeric policy and the reply text. Non-integral numbers, and numbers outside the signed 64-bit range, are
  valid requests answered `prime:false`.
- **Framing** (`framing.dfy`): `std::string::find('\n')`, which locates the first delimiter; the `substr`/`erase`
  pair that cuts the line off the buffer in front of it; and a character-at-a-time reference framer.
- **PrimeSession** (`session.dfy`, the read handler of `do_read`): a `Session` class holding the receive buffer,
  a closed flag and the replies written so far. `Feed` appends a chunk and answers complete lines in a loop like
  the source's. It stops for good after the first malformed line. `Feed` is proved against a pure step function.
  Lemmas show the following:
  - the replies are those to the stream's complete lines, in order, up to and including the first malformed one;
  - an unterminated line is kept and never answered;
  - any cutting of the stream into reads gives the same replies.
- **JsonValue**, **Wrappers**: the parsed-value tree and `Option`.

The JSON parser is a foreign library. It appears as a parameter `parse: string -> Option<Json>`, a constant of the
session. `None` stands for a parse error. Every result holds for every parser.

`ProcessLine` is a function, so it states its verdict with the predicate `Prime`, not by running the loop.
What `is_prime` computes rests on `Primality.IsPrime`, whose contract proves the loop returns exactly `Prime(n)`.

## Model

| member | source | states |
|---|---|---|
| Primality.IsPrime | 01_prime.cpp:28-37 | returns exactly `Prime(n)` (at least 2, no factor strictly between 1 and n); false for n ≤ 1, true for 2 and 3 |
| Primality.PrimeIffNoFactorUpToRoot | 01_prime.cpp:33 | for n ≥ 2, n is prime iff no d ≥ 2 with d·d ≤ n divides n, so stopping at i·i > n is sound |
| Primality.FirstCandidates | 01_prime.cpp:31 | once 2 and 3 do not divide n, nothing below 5 divides n (the loop's starting point) |
| Primality.RoundExcludesSixCandidates | 01_prime.cpp:33-35 | for i ≡ 5 mod 6, testing i and i+2 rules out every factor below i+6, since i+1, i+3, i+5 are even and i+4 is a multiple of 3 |
| Primality.NoFactorBelowBound | 01_prime.cpp:33-36 | if no factor lies below i and i·i > n, then n is prime (the `return true` after the loop) |
| Protocol.PrimeResponse | 01_prime.cpp:74-78 | a success line differs from `malformed\n` and ends in a single newline, with no other newline |
| Protocol.ToInt64 | 01_prime.cpp:76 | the cast to int64 of an integral in-range value keeps the value exactly |
| Protocol.ProcessLine | 01_prime.cpp:39-85 | ok iff the reply is not `malformed\n`; ok iff the input parsed to an object whose `method` is the string "isPrime" and whose `number` is numeric; an ok reply is one of the two success lines and says `prime:true` iff the number is an integer in [-2^63, 2^63-1] that is prime |
| Protocol.ExtraKeysIgnored | 01_prime.cpp:53-68 | two objects that agree on `method` and `number` (presence and value) get the same reply |
| Protocol.IntegerNumberVerdict | 01_prime.cpp:70-79 | a request with integer k is answered with k's primality inside the int64 range and with `prime:false` outside it |
| Protocol.FractionVerdict | 01_prime.cpp:70-74 | a request with a non-integral number is valid and answered `prime:false` |
| Protocol.AsWrittenAdmitsTwoTo63 | 01_prime.cpp:71-73 | the range test as written (upper bound = the double 2^63) admits 2^63, which lies outside the int64 range |
| Protocol.InDomainAsWritten | 01_prime.cpp:71-73 | the range test as written admits exactly the integers of the int64 range and, beyond them, 2^63 |
| Protocol.ToDouble | 01_prime.cpp:70 | `value_to<double>` on an integer: the result is a multiple of the binary64 spacing at k and lies within half a spacing of k (round to nearest); below 2^53 it is k itself |
| Protocol.IntegerReplyAsWritten | 01_prime.cpp:70-79 | lines 70-79 as written for an integer k ≥ 0 always accept the request, and below 2^53 answer with k's primality; the rounds-to-2^63 case stands in for the undefined cast |
| Protocol.LargePrimeExampleRounds | 01_prime.cpp:70 | the prime 9007199254740997 converts to the even double 9007199254740996 |
| Protocol.AsWrittenDoubleEven | 01_prime.cpp:70 | the conversion to binary64 maps every integer above 2^53 to an even integer greater than 2, which is never prime |
| Protocol.AsWrittenRoundsLargePrimes | 01_prime.cpp:70-79 | for a request with integer k in (2^53, 2^63), the code as written answers `prime:false`, while the exact reading answers with k's primality |
| Framing.FindNewline | 01_prime.cpp:96 | the result is the index of the first `\n` (a `\n` there, none before it), or None exactly when there is no `\n` |
| Framing.FindNewlineAppend | 01_prime.cpp:93-96 | appending a chunk does not move the first `\n` of a buffer that already has one |
| Framing.CutAtFirstNewline | 01_prime.cpp:96-98 | the extracted line has no `\n`, and the line, then `\n`, then the new buffer make up the old buffer |
| Framing.FrameJoin | 01_prime.cpp:93-107 | the reference framer loses nothing: its lines with their delimiters, then the partial line, make up the stream, and none of them holds a `\n` |
| PrimeSession.Drain | 01_prime.cpp:95-107 | after the extraction loop, an open session's buffer holds no `\n`; a closed one wrote at least one reply; replies plus leftover never outnumber the input characters |
| PrimeSession.HandlerHonest | 01_prime.cpp:39-85 | every reply is one of the three protocol lines, and a line is refused exactly when its reply is `malformed\n` |
| PrimeSession.DrainReplies | 01_prime.cpp:100-106 | every reply written is a protocol line, and `malformed\n` is exactly the last reply of a drain that closed the session |
| PrimeSession.AnswersPerLine | 01_prime.cpp:96-107 | reply i answers line i; replies stop right after the first refused line, and cover every line when none is refused |
| PrimeSession.DrainAppend | 01_prime.cpp:93-108 | draining a+b equals draining a and then, unless a closed the session, draining a's leftover followed by b |
| PrimeSession.DrainMatchesFrame | 01_prime.cpp:93-107 | the loop answers exactly the reference framer's complete lines, in order, until the first malformed one; otherwise it keeps the framer's partial line |
| PrimeSession.Step | 01_prime.cpp:92-108 | a read only appends replies; a closed session is unchanged; afterwards an open session's buffer has no `\n` |
| PrimeSession.StepPreservesWf | 01_prime.cpp:93-107 | reads preserve that an open session's buffer has no `\n` and that `malformed\n` can only be the last reply of a closed session |
| PrimeSession.ResidueUnanswered | 01_prime.cpp:93-96 | a chunk without `\n` writes nothing and is kept whole in the buffer |
| PrimeSession.ClosedIgnoresInput | 01_prime.cpp:101-104 | after closing, no later read changes anything |
| PrimeSession.StepTwice | 01_prime.cpp:93-108 | reading a, then b, is observably the same as reading a+b |
| PrimeSession.ChunkingInvariant | 01_prime.cpp:89-108 | any cutting of the input into reads gives the same replies and closed state as one read of everything |
| PrimeSession.StreamReplies | 01_prime.cpp:89-108 | from a fresh session, any chunking yields the replies to the stream's complete lines in order, up to and including the first malformed one; the session closes exactly when some line was malformed, and one left open holds the stream's unterminated last line |
| PrimeSession.Session.constructor | 01_prime.cpp:18-19 | a new session has an empty buffer, is open and has written nothing |
| PrimeSession.Session.Feed | 01_prime.cpp:92-108 | the new fields equal `Step` of the old ones: append, answer complete lines in order, stop and close after a malformed line; the session invariant is kept |
| PrimeSession.Session.EndOfStream | 01_prime.cpp:91-110 | a failed read or end of stream closes the session without writing, so a partial line is never answered |

## Left out

- `Server`, `do_accept`, `main`, `do_write` and the asio read/write callback chain (01_prime.cpp:87-91, 113-164) are
  network I/O and object lifetime.
- `responses` is the order of the `do_write` calls (lines 102, 106). It is not a guarantee of what reaches the wire.
  In the source, each `async_write` gets a buffer over the local `response` of line 100. That local dies when the
  loop iteration ends, and `async_write`s on one socket may overlap. `socket_.close()` at line 103 can also cancel
  the pending `malformed` write. Socket closing on a write error (lines 119-121) is not modelled.
- 0_echo.cpp and 00_echo.cpp are raw echo loops with no logic. They are not part of this model.
- The boost::json parser (line 42) is a foreign library and is the parameter `parse`. The model says nothing about
  which texts parse to what. An object is a map, so how the parser treats duplicate keys is hidden in `parse`.
- Protocol.ProcessLine: applies the numeric test to the exact value of `number`, not to its conversion to
  `double` (line 70). It differs from the source for every literal that rounds to another double:
  - `7.0000000000000001` rounds to 7.0, which the source answers `prime:true` and the model `prime:false`;
  - every integer above 2^53 rounds to an even double, so the source answers `prime:false` for every prime in
    (2^53, 2^63), while the model answers `prime:true` (see Findings).

  The model follows the intended rule: integral, within the int64 range, and judged on the exact integer. The
  conversion as written is modelled only for integers (`Protocol.ToDouble`), not for fractions.
- Primality.IsPrime: squares the candidate in unbounded integers. In the source, `i * i` is int64 and overflows
  when n has no factor below 3037000499 and n ≥ 3037000499². No such n reaches `is_prime` through `process_line`.
  Such n are odd and exceed 2^53, while every integral double above 2^53 is even, and so is rejected by
  the `n % 2` test first.
- The `catch (...)` branch (lines 81-84): none of the modelled checks can throw, so the model has no exception path.
- The 1024-byte read buffer `data_` (line 15) limits chunk size. `Feed` accepts a chunk of any length.
  `ChunkingInvariant` shows that chunk sizes do not change the replies.
- Text is `seq<char>`, not bytes. No encoding is modelled.
- `Feed` on a closed session changes nothing. The source never reads again after closing (line 104 returns
  before `do_read` at line 108).
- `EndOfStream` models the read handler's error branch. There the source does not touch the session and just
  lets it be released (line 92 skips everything, and no new read is issued).
- Primality.IsPrime squares in unbounded `int`, so the model never overflows. The line above says when the
  source's int64 `i * i` does.

## Findings

| source | as written | input that shows it | evidently intended | confidence | as-written member | corrected member |
|---|---|---|---|---|---|---|
| 01_prime.cpp:72 | the upper bound is the double literal `9223372036854775807.0`, which binary64 cannot hold and which denotes 2^63, so `num_double > 9223372036854775807.0` lets 2^63 through to `static_cast<int64_t>` (line 76), which is undefined for it | `{"method":"isPrime","number":9223372036854775808}`, and also `9223372036854775807`, which converts to the double 2^63 | values above 2^63−1 fail the range test and are answered `prime:false` before any cast | not executed; the literal's rounding is certain, the visible reply on common hardware is likely still `prime:false` | Protocol.AsWrittenAdmitsTwoTo63 | Protocol.IntegerNumberVerdict |
| 01_prime.cpp:70 | `json::value_to<double>` converts the integer that the parser read exactly to binary64, which holds only even integers above 2^53, and then tests the double | `{"method":"isPrime","number":9007199254740997}`: the number is prime and converts to 9007199254740996, so the reply is `prime:false` | the exact 64-bit integer is tested, as `is_prime(int64_t)` and the int64 range test suggest, and the reply is `prime:true` | not executed; the rounding is certain for every integer above 2^53; the primality of the example is not proved in the model | Protocol.AsWrittenRoundsLargePrimes | Protocol.ProcessLine |
