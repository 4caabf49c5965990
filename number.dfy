/** Task numbers: Rust's `str::parse::<usize>()` on the command argument, and
    the decimal form `{}` prints for the numbers in a listing. A 64-bit
    `usize` is assumed. */
module Number {

  const USIZE_MAX: nat := 0xFFFF_FFFF_FFFF_FFFF

  /** The kinds of `ParseIntError` that parsing an unsigned integer can give. */
  datatype ParseIntError = Empty | InvalidDigit | PosOverflow

  datatype Parsed = Value(n: nat) | Failed(error: ParseIntError)

  /** The text Rust displays for each kind of parse error. */
  function ParseErrorText(e: ParseIntError): string
  {
    match e
    case Empty => "cannot parse integer from empty string"
    case InvalidDigit => "invalid digit found in string"
    case PosOverflow => "number too large to fit in target type"
  }

  predicate IsDigit(c: char)
  {
    '0' <= c <= '9'
  }

  function DigitValue(c: char): nat
    requires IsDigit(c)
  {
    c as int - '0' as int
  }

  function DigitChar(d: nat): char
    requires d < 10
  {
    ('0' as int + d) as char
  }

  /** The digit loop of `from_str_radix`, left to right: a character that is
      not a digit fails with InvalidDigit, and a step that would go past
      USIZE_MAX fails with PosOverflow. */
  function ParseDigits(ds: string, acc: nat): (r: Parsed)
    requires acc <= USIZE_MAX
    ensures r.Value? ==> acc <= r.n <= USIZE_MAX
    ensures r.Value? ==> forall k :: 0 <= k < |ds| ==> IsDigit(ds[k])
  {
    if ds == [] then Value(acc)
    else if !IsDigit(ds[0]) then Failed(InvalidDigit)
    else if acc * 10 + DigitValue(ds[0]) > USIZE_MAX then Failed(PosOverflow)
    else ParseDigits(ds[1..], acc * 10 + DigitValue(ds[0]))
  }

  /** `s.parse::<usize>()`: the empty string fails with Empty; a lone sign
      fails with InvalidDigit; one leading '+' is allowed; '-' is not a
      digit. */
  function ParseUsize(s: string): (r: Parsed)
    ensures r.Value? ==> r.n <= USIZE_MAX
    ensures s == [] ==> r == Failed(Empty)
    ensures r.Value? ==> var body := if s[0] == '+' then s[1..] else s;
      body != [] && forall k :: 0 <= k < |body| ==> IsDigit(body[k])
  {
    if s == [] then Failed(Empty)
    else if s == "+" || s == "-" then Failed(InvalidDigit)
    else if s[0] == '+' then ParseDigits(s[1..], 0)
    else ParseDigits(s, 0)
  }

  /** The decimal digits of `n` without leading zeros, as `{}` prints it. */
  function Decimal(n: nat): (r: string)
    ensures r != []
    ensures forall k :: 0 <= k < |r| ==> IsDigit(r[k])
    decreases n
  {
    if n < 10 then [DigitChar(n)] else Decimal(n / 10) + [DigitChar(n % 10)]
  }

  /** Parsing is a left-to-right scan: parsing `a + b` parses `a`, then goes
      on with `b` from where `a` left off. */
  lemma {:induction false} ParseDigitsAppend(a: string, b: string, acc: nat)
    requires acc <= USIZE_MAX
    ensures ParseDigits(a + b, acc) ==
      match ParseDigits(a, acc)
      case Value(v) => ParseDigits(b, v)
      case Failed(e) => Failed(e)
    decreases |a|
  {
    if a == [] {
      assert a + b == b;
    } else {
      assert (a + b)[0] == a[0] && (a + b)[1..] == a[1..] + b;
      if IsDigit(a[0]) && acc * 10 + DigitValue(a[0]) <= USIZE_MAX {
        ParseDigitsAppend(a[1..], b, acc * 10 + DigitValue(a[0]));
      }
    }
  }

  /** Every number `{}` can print for a usize parses back to itself: the
      number a listing shows is the number `done` accepts. */
  lemma {:induction false} ParseDecimal(n: nat)
    requires n <= USIZE_MAX
    ensures ParseDigits(Decimal(n), 0) == Value(n)
    ensures ParseUsize(Decimal(n)) == Value(n)
    decreases n
  {
    var d := DigitChar(n % 10);
    assert IsDigit(d) && DigitValue(d) == n % 10;
    if n >= 10 {
      ParseDecimal(n / 10);
      ParseDigitsAppend(Decimal(n / 10), [d], 0);
      assert ParseDigits([d], n / 10) == ParseDigits([], n) by {
        assert [d][1..] == [];
      }
    }
    var s := Decimal(n);
    assert IsDigit(s[0]);
  }
}
