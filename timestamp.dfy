/** The RPC interface sends `FirstSubmitted` and `LastModified` as integer
    counts of seconds since the Unix epoch, not as RFC 3339 text; the
    `timeUnmarshaler` wrapper decodes them with `strconv.Atoi`. Go's `int`
    is 64 bits wide here, and a `time.Time` is kept as its Unix second. */
module Timestamp {
  import opened Wrappers

  const MinInt64: int := -0x8000_0000_0000_0000
  const MaxInt64: int := 0x7FFF_FFFF_FFFF_FFFF

  predicate IsDigit(c: char) {
    '0' <= c <= '9'
  }

  predicate AllDigits(s: string) {
    forall i :: 0 <= i < |s| ==> IsDigit(s[i])
  }

  function DigitValue(c: char): (d: nat)
    requires IsDigit(c)
    ensures d < 10
  {
    c as int - '0' as int
  }

  /** The number a run of decimal digits denotes, most significant first. */
  function DigitsValue(s: string): nat
    requires AllDigits(s)
    decreases |s|
  {
    if |s| == 0 then 0 else 10 * DigitsValue(s[..|s| - 1]) + DigitValue(s[|s| - 1])
  }

  predicate IsSign(c: char) {
    c == '+' || c == '-'
  }

  /** The text `Atoi` accepts, apart from its range: an optional `+` or `-`
      followed by one or more decimal digits, and nothing else. */
  predicate IsIntegerToken(s: string) {
    if |s| > 0 && IsSign(s[0]) then |s| > 1 && AllDigits(s[1..]) else |s| > 0 && AllDigits(s)
  }

  /** The integer such a token denotes. */
  function TokenValue(s: string): int
    requires IsIntegerToken(s)
  {
    if s[0] == '-' then -(DigitsValue(s[1..]) as int)
    else if s[0] == '+' then DigitsValue(s[1..])
    else DigitsValue(s)
  }

  /** The digit loop of `strconv.Atoi`: left to right, `acc = acc*10 + d`,
      failing on the first character that is not a digit. `done` is the
      text already consumed, whose value `acc` holds. */
  function Accumulate(s: string, acc: nat, ghost done: string): (r: Option<nat>)
    requires AllDigits(done) && DigitsValue(done) == acc
    ensures r.Some? <==> AllDigits(s)
    ensures r.Some? ==> AllDigits(done + s) && r.value == DigitsValue(done + s)
    decreases |s|
  {
    if |s| == 0 then
      assert done + s == done;
      Some(acc)
    else if !IsDigit(s[0]) then None
    else
      var next := done + [s[0]];
      ConsumeDigit(done, s);
      Accumulate(s[1..], 10 * acc + DigitValue(s[0]), next)
  }

  /** Moving one digit from the input to the consumed text. */
  lemma ConsumeDigit(done: string, s: string)
    requires AllDigits(done) && |s| > 0 && IsDigit(s[0])
    ensures AllDigits(done + [s[0]])
    ensures DigitsValue(done + [s[0]]) == 10 * DigitsValue(done) + DigitValue(s[0])
    ensures (done + [s[0]]) + s[1..] == done + s
    ensures AllDigits(s) <==> AllDigits(s[1..])
  {
  }

  /** `*strconv.NumError`; whether the cause was `ErrSyntax` or `ErrRange`
      is not modelled. */
  datatype NumError = NumError(Func: string, Num: string)

  /** `strconv.Atoi` on a 64-bit platform. */
  function Atoi(s: string): (r: Result<int, NumError>)
    ensures r.Success? <==> IsIntegerToken(s) && MinInt64 <= TokenValue(s) <= MaxInt64
    ensures r.Success? ==> r.value == TokenValue(s)
    ensures r.Failure? ==> r.error == NumError("Atoi", s)
  {
    var neg := |s| > 0 && s[0] == '-';
    var digits := if |s| > 0 && IsSign(s[0]) then s[1..] else s;
    var u := Accumulate(digits, 0, "");
    assert "" + digits == digits;
    if |digits| == 0 || u.None? then Failure(NumError("Atoi", s))
    else if neg && u.value <= -MinInt64 then Success(-(u.value as int))
    else if !neg && u.value <= MaxInt64 then Success(u.value)
    else Failure(NumError("Atoi", s))
  }

  /** Shortest decimal digits of a natural number, the inverse direction. */
  function Digits(n: nat): (s: string)
    ensures |s| > 0
    decreases n
  {
    if n < 10 then [DigitChar(n)] else Digits(n / 10) + [DigitChar(n % 10)]
  }

  function DigitChar(d: nat): (c: char)
    requires d < 10
    ensures IsDigit(c) && DigitValue(c) == d
  {
    ('0' as int + d) as char
  }

  lemma {:induction false} DigitsRoundTrip(n: nat)
    ensures AllDigits(Digits(n)) && DigitsValue(Digits(n)) == n
    decreases n
  {
    if n >= 10 {
      DigitsRoundTrip(n / 10);
      var s := Digits(n);
      assert s[..|s| - 1] == Digits(n / 10);
    }
  }

  /** `strconv.Itoa`: the text Go prints for an integer. */
  function Itoa(n: int): string {
    if n < 0 then "-" + Digits(-n) else Digits(n)
  }

  /** Decimal text of an integer is a token denoting that integer. */
  lemma ItoaToken(n: int)
    ensures IsIntegerToken(Itoa(n)) && TokenValue(Itoa(n)) == n
  {
    if n < 0 {
      DigitsRoundTrip(-n);
      assert Itoa(n)[1..] == Digits(-n);
    } else {
      DigitsRoundTrip(n);
    }
  }

  /** `Atoi` inverts `Itoa` on every 64-bit integer and refuses the decimal
      text of every integer outside that range. */
  lemma AtoiItoa(n: int)
    ensures Atoi(Itoa(n)) == if MinInt64 <= n <= MaxInt64 then Success(n) else Failure(NumError("Atoi", Itoa(n)))
  {
    ItoaToken(n);
  }

  /** A moment in Coordinated Universal Time, by calendar fields. */
  datatype CivilTime = CivilTime(year: int, month: int, day: int, hour: int, minute: int, second: int)

  /** Days from 1970-01-01 to a date of the proleptic Gregorian calendar. */
  function DaysFromCivil(y: int, m: int, d: int): int
    requires 1 <= m <= 12
  {
    var y' := if m <= 2 then y - 1 else y;
    var era := y' / 400;
    var yoe := y' - era * 400;
    var mp := if m > 2 then m - 3 else m + 9;
    var doy := (153 * mp + 2) / 5 + d - 1;
    var doe := yoe * 365 + yoe / 4 - yoe / 100 + doy;
    era * 146097 + doe - 719468
  }

  /** The Unix second of a UTC moment, which `time.Unix` inverts. */
  function UnixSeconds(t: CivilTime): int
    requires 1 <= t.month <= 12
  {
    DaysFromCivil(t.year, t.month, t.day) * 86400 + t.hour * 3600 + t.minute * 60 + t.second
  }

  /** `timeUnmarshaler`: a `time.Time` that decodes itself from the raw
      JSON token of an integer. */
  class TimeUnmarshaler {
    var Time: int

    constructor (t: int)
      ensures Time == t
    {
      Time := t;
    }

    /** `UnmarshalJSON`: on success the receiver holds the token's value
        as seconds since the epoch; on failure it is left as it was and
        the `Atoi` error is returned. */
    method UnmarshalJSON(str: string) returns (err: Option<NumError>)
      modifies this
      ensures err.None? <==> IsIntegerToken(str) && MinInt64 <= TokenValue(str) <= MaxInt64
      ensures err.None? ==> Time == TokenValue(str)
      ensures err.Some? ==> Time == old(Time) && err.value == NumError("Atoi", str)
    {
      var r := Atoi(str);
      if r.Failure? {
        return Some(r.error);
      }
      Time := r.value;
      return None;
    }
  }

  lemma ItoaExample()
    ensures Itoa(1350939768) == "1350939768"
  {
    assert Digits(1) == "1";
    assert Digits(13) == "13";
    assert Digits(135) == "135";
    assert Digits(1350) == "1350";
    assert Digits(13509) == "13509";
    assert Digits(135093) == "135093";
    assert Digits(1350939) == "1350939";
    assert Digits(13509397) == "13509397";
    assert Digits(135093976) == "135093976";
  }

  lemma EpochExample()
    ensures UnixSeconds(CivilTime(2012, 10, 22, 21, 2, 48)) == 1350939768
  {
  }

  /** The reply field `1350939768` decodes to 2012-10-22 21:02:48 UTC. */
  method DecodeExample() returns (t: TimeUnmarshaler)
    ensures t.Time == UnixSeconds(CivilTime(2012, 10, 22, 21, 2, 48))
  {
    t := new TimeUnmarshaler(0);
    ItoaExample();
    AtoiItoa(1350939768);
    EpochExample();
    var err := t.UnmarshalJSON("1350939768");
  }

  /** Tokens that are not plain decimal integers are refused: no digits,
      a quoted string, a fraction, JSON `null`. */
  lemma AtoiRejectsMalformed()
    ensures Atoi("").Failure? && Atoi("-").Failure? && Atoi("+").Failure?
    ensures Atoi("\"1\"").Failure? && Atoi("1.5").Failure? && Atoi("null").Failure?
  {
  }

  /** A sign and leading zeros are accepted. */
  lemma AtoiAcceptsSignAndZeros()
    ensures Atoi("+007") == Success(7) && Atoi("-42") == Success(-42)
  {
  }
}
