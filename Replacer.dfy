/** The replacer argument of `drown_volume` and the candidate list it selects: 'face'
    samples the ring, 'air' gives [0], an integer (or a string holding one) gives that
    integer, and anything else falls back to ring sampling with a printed warning. */
module Replacer {
  import opened Wrappers
  import opened Volumes
  import Dilation
  import Sampling

  /** The argument as a caller passes it: a string or an integer. */
  datatype ReplacerArg = Text(text: string) | Number(value: int)

  /** The three candidate policies. */
  datatype Policy = RingSampled | AirValue | FixedValue(value: int)

  /** The policy selected, and whether the fallback warning was printed. */
  datatype Selection = Selection(policy: Policy, warned: bool)

  predicate IsDigit(ch: char) {
    '0' <= ch <= '9'
  }

  predicate IsDigits(s: string) {
    |s| > 0 && forall i :: 0 <= i < |s| ==> IsDigit(s[i])
  }

  /** The most decimal digits `int()` converts by default; a longer digit string raises
      (`sys.get_int_max_str_digits()`). */
  const INT_MAX_STR_DIGITS: nat := 4300

  /** The digits of an integer literal: one or more decimal digits, at most the limit. */
  predicate IsDigitString(s: string) {
    IsDigits(s) && |s| <= INT_MAX_STR_DIGITS
  }

  /** The accepted integer syntax: an optional sign followed by one or more decimal
      digits, no more than the limit. */
  predicate IsIntLiteral(s: string) {
    IsDigitString(s) || (|s| > 1 && (s[0] == '+' || s[0] == '-') && IsDigitString(s[1..]))
  }

  function DigitValue(ch: char): nat
    requires IsDigit(ch)
  {
    ch as int - '0' as int
  }

  /** The value of a string of decimal digits, most significant first. */
  function DigitsValue(s: string): nat
    requires forall i :: 0 <= i < |s| ==> IsDigit(s[i])
  {
    if |s| == 0 then 0
    else DigitsValue(s[..|s| - 1]) * 10 + DigitValue(s[|s| - 1])
  }

  /** `int(s)` restricted to the accepted syntax; None where Python raises, including on
      a digit string longer than the limit. */
  function ParseInt(s: string): (r: Option<int>)
    ensures r.Some? <==> IsIntLiteral(s)
  {
    if IsDigitString(s) then Some(DigitsValue(s) as int)
    else if |s| > 1 && s[0] == '+' && IsDigitString(s[1..]) then Some(DigitsValue(s[1..]) as int)
    else if |s| > 1 && s[0] == '-' && IsDigitString(s[1..]) then Some(-(DigitsValue(s[1..]) as int))
    else None
  }

  /** The decimal digits of a natural number, without leading zeros. */
  function Digits(n: nat): string {
    if n < 10 then [('0' as int + n) as char]
    else Digits(n / 10) + [('0' as int + n % 10) as char]
  }

  /** `str(n)`: the decimal representation of an integer, with a minus sign when negative. */
  function ShowInt(n: int): string {
    if n < 0 then "-" + Digits(-n) else Digits(n)
  }

  lemma {:induction false} DigitsRoundTrip(n: nat)
    ensures IsDigits(Digits(n))
    ensures DigitsValue(Digits(n)) == n
  {
    if n >= 10 {
      DigitsRoundTrip(n / 10);
      var d := Digits(n);
      assert d[..|d| - 1] == Digits(n / 10);
    }
  }

  /** Parsing the decimal representation of any integer within the digit limit gives that
      integer back (`str` itself refuses longer ones). */
  lemma ParseShowRoundTrip(n: int)
    requires |Digits(if n < 0 then -n else n)| <= INT_MAX_STR_DIGITS
    ensures ParseInt(ShowInt(n)) == Some(n)
  {
    if n < 0 {
      DigitsRoundTrip(-n);
      assert ShowInt(n)[1..] == Digits(-n);
    } else {
      DigitsRoundTrip(n);
    }
  }

  /** The replacer branch of `drown_volume`. */
  function SelectPolicy(arg: ReplacerArg): Selection {
    match arg
    case Text(t) =>
      if t == "face" then Selection(RingSampled, false)
      else if t == "air" then Selection(AirValue, false)
      else (match ParseInt(t)
        case Some(n) => Selection(FixedValue(n), false)
        case None => Selection(RingSampled, true))
    case Number(n) => Selection(FixedValue(n), false)
  }

  /** The candidate list of a policy: ring sampling takes the unique values of the HU
      volume under `dilated - processed`. */
  function CandidateValues(policy: Policy, hu: Volume, dilated: Volume, processed: Volume): seq<int>
    requires SameShape(hu, dilated) && SameShape(dilated, processed)
  {
    match policy
    case RingSampled => Sampling.ApplyMaskAndGetValues(hu, Dilation.Ring(dilated, processed))
    case AirValue => [0]
    case FixedValue(n) => [n]
  }

  /** 'air' selects exactly [0], and an integer or its decimal string (within the digit
      limit) selects exactly that integer; neither prints a warning. */
  lemma FixedSelections(n: int, hu: Volume, dilated: Volume, processed: Volume)
    requires SameShape(hu, dilated) && SameShape(dilated, processed)
    requires |Digits(if n < 0 then -n else n)| <= INT_MAX_STR_DIGITS
    ensures !SelectPolicy(Text("air")).warned &&
      CandidateValues(SelectPolicy(Text("air")).policy, hu, dilated, processed) == [0]
    ensures SelectPolicy(Text(ShowInt(n))) == Selection(FixedValue(n), false)
    ensures SelectPolicy(Number(n)) == Selection(FixedValue(n), false)
    ensures CandidateValues(SelectPolicy(Text(ShowInt(n))).policy, hu, dilated, processed) == [n]
  {
    ParseShowRoundTrip(n);
    DigitsRoundTrip(if n < 0 then -n else n);
    var t := ShowInt(n);
    assert t[0] == '-' || IsDigit(t[0]);
    assert t != "face" && t != "air" by {
      assert "face"[0] == 'f' && "air"[0] == 'a';
    }
  }

  /** A string that is neither 'face', 'air' nor an integer prints the warning and gives
      exactly the candidates of 'face'; the warning is printed in no other case. */
  lemma FallbackIsFace(arg: ReplacerArg, hu: Volume, dilated: Volume, processed: Volume)
    requires SameShape(hu, dilated) && SameShape(dilated, processed)
    ensures SelectPolicy(arg).warned <==>
      arg.Text? && arg.text != "face" && arg.text != "air" && !IsIntLiteral(arg.text)
    ensures SelectPolicy(arg).warned ==>
      CandidateValues(SelectPolicy(arg).policy, hu, dilated, processed) ==
      CandidateValues(SelectPolicy(Text("face")).policy, hu, dilated, processed)
  {
  }

  /** A digit string longer than the limit is no integer for `int()`: it prints the
      warning and falls back to 'face'. */
  lemma TooManyDigitsFallsBack(s: string)
    requires IsDigits(s) && |s| > INT_MAX_STR_DIGITS
    ensures SelectPolicy(Text(s)) == Selection(RingSampled, true)
  {
    assert IsDigit(s[0]);
    assert s != "face" && s != "air" by {
      assert "face"[0] == 'f' && "air"[0] == 'a';
    }
  }
}
