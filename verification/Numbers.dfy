/** Printing unsigned numbers in decimal and hexadecimal, and reading decimal ones back. */
module Numbers {
  import opened Words
  import opened Strings

  // ---- numerals ----

  /** The two bases that are printed. */
  type Base = b: nat | b == 10 || b == 16 witness 10

  /** Arithmetic in a base, case by case: multiplication and division by a constant. */
  function Times(v: nat, base: Base): nat { if base == 10 then 10 * v else 16 * v }

  function Quotient(n: nat, base: Base): (q: nat)
    ensures q <= n && (n > 0 ==> q < n)
  {
    if base == 10 then n / 10 else n / 16
  }

  function LastDigit(n: nat, base: Base): (d: nat)
    ensures d < base && n == Times(Quotient(n, base), base) + d
  {
    if base == 10 then n % 10 else n % 16
  }

  /** The digits of n, most significant first: none for 0. */
  function Digits(n: nat, base: Base): seq<nat>
    decreases n
  {
    if n == 0 then [] else Digits(Quotient(n, base), base) + [LastDigit(n, base)]
  }

  /** The numeral of n: 0 is written with one digit. */
  function Numeral(n: nat, base: Base): seq<nat> { if n == 0 then [0] else Digits(n, base) }

  function Value(digits: seq<nat>, base: Base): nat {
    if digits == [] then 0 else Times(Value(digits[..|digits| - 1], base), base) + digits[|digits| - 1]
  }

  /** Digits below the base, at least one, and no leading zero unless it is the only digit. */
  ghost predicate Canonical(digits: seq<nat>, base: Base) {
    digits != [] && (forall d :: d in digits ==> d < base) && (digits[0] == 0 ==> |digits| == 1)
  }

  lemma ValuePush(digits: seq<nat>, last: nat, base: Base)
    ensures Value(digits + [last], base) == Times(Value(digits, base), base) + last
  {
    hide Times;
    assert (digits + [last])[..|digits|] == digits;
  }

  lemma DigitsPush(n: nat, base: Base)
    requires n > 0
    ensures Digits(n, base) == Digits(Quotient(n, base), base) + [LastDigit(n, base)]
  {
    hide Quotient, LastDigit;
  }

  lemma {:induction false} DigitsOk(n: nat, base: Base)
    ensures Value(Digits(n, base), base) == n
    ensures forall d :: d in Digits(n, base) ==> d < base
    ensures n > 0 ==> Digits(n, base) != [] && Digits(n, base)[0] > 0
    decreases n
  {
    hide Quotient, LastDigit, Times;
    if n == 0 {
      assert Digits(n, base) == [];
    } else {
      hide Digits, Value;
      var rest, last := Digits(Quotient(n, base), base), LastDigit(n, base);
      DigitsOk(Quotient(n, base), base);
      DigitsPush(n, base);
      ValuePush(rest, last, base);
      if Quotient(n, base) == 0 {
        NoDigits(base);
        Small(n, base);
      }
    }
  }

  lemma NoDigits(base: Base)
    ensures Digits(0, base) == [] && Value([], base) == 0
  {
  }

  lemma Small(n: nat, base: Base)
    ensures Quotient(n, base) == 0 ==> LastDigit(n, base) == n
  {
  }

  /** The numeral of a number is canonical and has its value. */
  lemma NumeralOk(n: nat, base: Base)
    ensures Canonical(Numeral(n, base), base) && Value(Numeral(n, base), base) == n
  {
    DigitsOk(n, base);
    assert [0][..0] == [];
  }

  lemma Divided(v: nat, base: Base, last: nat)
    requires last < base
    ensures Quotient(Times(v, base) + last, base) == v && LastDigit(Times(v, base) + last, base) == last
  {
  }

  lemma {:induction false} LeadingDigit(digits: seq<nat>, base: Base)
    requires digits != [] && (forall d :: d in digits ==> d < base) && digits[0] > 0
    ensures Digits(Value(digits, base), base) == digits && Value(digits, base) > 0
    decreases |digits|
  {
    hide Quotient, LastDigit, Digits, Value;
    var rest, last := digits[..|digits| - 1], digits[|digits| - 1];
    var v := Value(rest, base);
    assert rest + [last] == digits && last in digits;
    assert forall d :: d in rest ==> d in digits;
    ValuePush(rest, last, base);
    Divided(v, base, last);
    if rest == [] {
      NoDigits(base);
    } else {
      LeadingDigit(rest, base);
    }
    DigitsPush(Value(digits, base), base);
  }

  /** No other canonical numeral has that value. */
  lemma NumeralIsUnique(digits: seq<nat>, base: Base)
    requires Canonical(digits, base)
    ensures Numeral(Value(digits, base), base) == digits
  {
    if digits[0] == 0 {
      assert digits == [0] && digits[..0] == [];
    } else {
      LeadingDigit(digits, base);
    }
  }

  function Power(base: Base, k: nat): nat { if k == 0 then 1 else Times(Power(base, k - 1), base) }

  lemma {:induction false} DigitCount(n: nat, base: Base, k: nat)
    requires n < Power(base, k)
    ensures |Digits(n, base)| <= k
    decreases k
  {
    if n > 0 {
      assert Quotient(n, base) < Power(base, k - 1);
      DigitCount(Quotient(n, base), base, k - 1);
    }
  }

  // ---- printing ----

  /** A digit as a character: '0' to '9', then 'a' to 'f'. */
  function DigitChar(d: nat): nat { if d <= 9 then 48 + d else 87 + d }

  function Characters(digits: seq<nat>): (text: seq<nat>)
    ensures |text| == |digits| && forall i :: 0 <= i < |digits| ==> text[i] == DigitChar(digits[i])
  {
    seq(|digits|, i requires 0 <= i < |digits| => DigitChar(digits[i]))
  }

  /** The text spells the digits. */
  ghost predicate Spells(text: seq<nat>, digits: seq<nat>) {
    |text| == |digits| && forall i :: 0 <= i < |digits| ==>
      digits[i] < 16 && text[i] == "0123456789abcdef"[digits[i]] as nat
  }

  lemma DigitCharIs(d: nat)
    requires d < 16
    ensures DigitChar(d) == "0123456789abcdef"[d] as nat
  {
  }

  lemma SpellsIff(text: seq<nat>, digits: seq<nat>)
    requires forall i :: 0 <= i < |digits| ==> digits[i] < 16
    ensures Spells(text, digits) <==> text == Characters(digits)
  {
    hide DigitChar;
    forall i | 0 <= i < |digits| ensures DigitChar(digits[i]) == "0123456789abcdef"[digits[i]] as nat {
      DigitCharIs(digits[i]);
    }
  }

  lemma TwentyDigits(n: nat, base: Base)
    requires n < TWO_64
    ensures |Numeral(n, base)| <= 20
  {
    if base == 10 {
      assert Power(10, 20) == 100_000_000_000_000_000_000 by {
        assert Power(10, 5) == 100_000;
        assert Power(10, 10) == 10_000_000_000;
        assert Power(10, 15) == 1_000_000_000_000_000;
      }
    } else {
      assert Power(16, 16) == TWO_64 by {
        assert Power(16, 4) == 0x1_0000;
        assert Power(16, 8) == 0x1_0000_0000;
        assert Power(16, 12) == 0x1_0000_0000_0000;
      }
    }
    DigitCount(n, base, if base == 10 then 20 else 16);
  }

  /** The first loop of `kprint_d` and `kprint_x`. Its guard i >= 0 always holds of an unsigned i, yet the digits
      never run off the front of the array. */
  method ExtractDigits(number: nat, base: Base) returns (arr: array<nat>, counter: nat)
    requires number < TWO_64
    ensures fresh(arr) && arr.Length == 20 && counter < 20 && arr[counter..] == Numeral(number, base)
  {
    hide Quotient, LastDigit, Digits, Numeral;
    NoDigits(base);
    NumeralIs(number, base);
    arr := new nat[20];
    var value := number;
    counter := 0;
    var i := 19;
    TwentyDigits(number, base);
    while true
      invariant 0 <= i <= 19
      invariant if number == 0 then i == 19 && value == 0 else value > 0
      invariant Digits(value, base) + arr[i + 1..] == Digits(number, base)
      decreases i
    {
      ghost var rest := arr[i + 1..];
      if value > 0 {
        DigitsPush(value, base);
        DigitsInFront(Digits(Quotient(value, base), base), LastDigit(value, base), rest);
      } else {
        ZeroDivided(base);
      }
      var currentPlace := LastDigit(value, base);
      arr[i] := currentPlace;
      assert arr[i..] == [currentPlace] + rest;
      value := Quotient(value, base);
      if value == 0 {
        counter := i;
        break;
      }
      DigitsPush(value, base);
      i := i - 1;
    }
  }

  lemma NumeralIs(n: nat, base: Base)
    ensures Numeral(n, base) == if n == 0 then [0] else Digits(n, base)
  {
  }

  lemma DigitsInFront(digits: seq<nat>, d: nat, rest: seq<nat>)
    ensures digits + ([d] + rest) == (digits + [d]) + rest
  {
  }

  lemma ZeroDivided(base: Base)
    ensures Quotient(0, base) == 0 && LastDigit(0, base) == 0
  {
  }

  lemma DigitsBelow(n: nat, base: Base)
    ensures forall i :: 0 <= i < |Numeral(n, base)| ==> Numeral(n, base)[i] < base
  {
    DigitsOk(n, base);
    forall i | 0 <= i < |Numeral(n, base)| ensures Numeral(n, base)[i] < base {
      assert Numeral(n, base)[i] in Numeral(n, base);
    }
  }

  /** `kprint_d` prints the decimal numeral. */
  method KprintD(number: nat) returns (printed: seq<nat>)
    requires number < TWO_64
    ensures printed == Characters(Numeral(number, 10)) && Spells(printed, Numeral(number, 10))
  {
    hide Numeral, Spells;
    DigitsBelow(number, 10);
    var arr, counter := ExtractDigits(number, 10);
    printed := [];
    for i := counter to 20
      invariant printed == Characters(arr[counter..i])
    {
      assert arr[counter..][i - counter] == arr[i];
      if 0 <= arr[i] <= 9 {
        printed := printed + [48 + arr[i]];
      }
      assert arr[counter..i + 1] == arr[counter..i] + [arr[i]];
    }
    assert arr[counter..20] == arr[counter..];
    SpellsIff(printed, Numeral(number, 10));
  }

  /** `kprint_x` prints the hexadecimal numeral. */
  method KprintX(number: nat) returns (printed: seq<nat>)
    requires number < TWO_64
    ensures printed == Characters(Numeral(number, 16)) && Spells(printed, Numeral(number, 16))
  {
    hide Numeral, Spells;
    DigitsBelow(number, 16);
    var arr, counter := ExtractDigits(number, 16);
    printed := [];
    for i := counter to 20
      invariant printed == Characters(arr[counter..i])
    {
      if 0 <= arr[i] <= 9 {
        printed := printed + [48 + arr[i]];
      } else {
        printed := printed + [87 + arr[i]];
      }
      assert arr[counter..i + 1] == arr[counter..i] + [arr[i]];
    }
    assert arr[counter..20] == arr[counter..];
    SpellsIff(printed, Numeral(number, 16));
  }

  // ---- reading ----

  const TWO_31: nat := 0x8000_0000

  predicate IsSpace(c: nat) { 9 <= c <= 13 || c == 32 }

  predicate IsDigit(c: nat) { 48 <= c <= 57 }

  /** The digits that s starts with. */
  function DigitRun(s: seq<nat>): (digits: seq<nat>)
    ensures |digits| <= |s| && forall i :: 0 <= i < |digits| ==> s[i] == 48 + digits[i] && digits[i] <= 9
    ensures |digits| < |s| ==> !IsDigit(s[|digits|])
  {
    if s == [] || !IsDigit(s[0]) then [] else [s[0] - 48] + DigitRun(s[1..])
  }

  /** The number that a string reads as: the digits after leading white space. */
  function Parsed(s: seq<nat>): nat {
    if s != [] && IsSpace(s[0]) then Parsed(s[1..]) else Value(DigitRun(s), 10)
  }

  lemma RunFront(c: nat, s: seq<nat>)
    ensures DigitRun([c] + s) == if IsDigit(c) then [c - 48] + DigitRun(s) else []
  {
    assert ([c] + s)[1..] == s;
  }

  lemma CharactersFront(digits: seq<nat>, rest: seq<nat>)
    requires digits != []
    ensures Characters(digits) + rest == [DigitChar(digits[0])] + (Characters(digits[1..]) + rest)
  {
  }

  lemma NoRun(rest: seq<nat>)
    requires rest == [] || !IsDigit(rest[0])
    ensures DigitRun(Characters([]) + rest) == []
  {
    assert Characters([]) + rest == rest;
  }

  lemma {:induction false} DigitRunOf(digits: seq<nat>, rest: seq<nat>)
    requires (forall d :: d in digits ==> d < 10) && (rest == [] || !IsDigit(rest[0]))
    ensures DigitRun(Characters(digits) + rest) == digits
  {
    hide DigitRun, Characters;
    if digits == [] {
      NoRun(rest);
    } else {
      assert digits == [digits[0]] + digits[1..];
      assert digits[0] in digits && forall d :: d in digits[1..] ==> d in digits;
      CharactersFront(digits, rest);
      RunFront(DigitChar(digits[0]), Characters(digits[1..]) + rest);
      DigitRunOf(digits[1..], rest);
    }
  }

  lemma {:induction false} ParsedSkipsSpace(spaces: seq<nat>, s: seq<nat>)
    requires forall c :: c in spaces ==> IsSpace(c)
    ensures Parsed(spaces + s) == Parsed(s)
  {
    if spaces == [] {
      assert spaces + s == s;
    } else {
      assert (spaces + s)[1..] == spaces[1..] + s;
      ParsedSkipsSpace(spaces[1..], s);
    }
  }

  /** Every string is white space, then digits, then a rest that neither could have taken; it reads as the number its
      digits make, 0 if there are none. */
  lemma ParsedIs(spaces: seq<nat>, text: seq<nat>, digits: seq<nat>, rest: seq<nat>)
    requires forall c :: c in spaces ==> c in {9, 10, 11, 12, 13, 32}
    requires (forall d :: d in digits ==> d < 10) && Spells(text, digits)
    requires rest != [] ==> !(48 <= rest[0] <= 57) && (digits == [] ==> rest[0] !in {9, 10, 11, 12, 13, 32})
    ensures Parsed(spaces + (text + rest)) == Value(digits, 10)
  {
    hide DigitRun, Value, Spells;
    var t := text + rest;
    forall i | 0 <= i < |digits| ensures digits[i] < 10 {
      assert digits[i] in digits;
    }
    SpellsIff(text, digits);
    ParsedSkipsSpace(spaces, t);
    DigitRunOf(digits, rest);
    if digits != [] {
      assert t[0] == text[0] == DigitChar(digits[0]);
    } else {
      assert t == rest;
    }
  }

  /** What `kprint_d` prints reads back as the number, with any white space before it and anything but a digit
      after it. */
  lemma PrintedReadsBack(spaces: seq<nat>, number: nat, text: seq<nat>, rest: seq<nat>)
    requires forall c :: c in spaces ==> c in {9, 10, 11, 12, 13, 32}
    requires Spells(text, Numeral(number, 10)) && (rest != [] ==> !(48 <= rest[0] <= 57))
    ensures Parsed(spaces + (text + rest)) == number
  {
    hide Numeral, Parsed, Spells;
    NumeralOk(number, 10);
    ParsedIs(spaces, text, Numeral(number, 10), rest);
  }

  lemma {:induction false} ValuePrefix(digits: seq<nat>, k: nat)
    requires k <= |digits|
    ensures Value(digits[..k], 10) <= Value(digits, 10)
  {
    if k < |digits| {
      ValuePrefix(digits[..|digits| - 1], k);
      assert digits[..|digits| - 1][..k] == digits[..k];
    } else {
      assert digits[..k] == digits;
    }
  }

  lemma ParsedStep(s: seq<nat>)
    requires s != []
    ensures IsSpace(s[0]) ==> Parsed(s) == Parsed(s[1..])
    ensures !IsSpace(s[0]) ==> Parsed(s) == Value(DigitRun(s), 10)
  {
    hide Value, DigitRun;
  }

  /** The number that the first i digits of a run make, and how it goes on. */
  lemma PartOfRun(digits: seq<nat>, i: nat)
    requires i < |digits|
    ensures Value(digits[..i + 1], 10) == 10 * Value(digits[..i], 10) + digits[i] <= Value(digits, 10)
  {
    hide Value;
    assert digits[..i + 1] == digits[..i] + [digits[i]];
    ValuePush(digits[..i], digits[i], 10);
    ValuePrefix(digits, i + 1);
  }

  /** `atoi` of a terminated string whose number is an int. (A larger one overflows, which the language leaves
      undefined.) */
  method Atoi(s: seq<nat>) returns (result: nat)
    requires 0 in s && Parsed(s) < TWO_31
    ensures result == Parsed(s)
  {
    hide Parsed, DigitRun, Value;
    NoDigits(10);
    result := 0;
    var p := 0;
    assert s[0..] == s;
    ghost var z :| 0 <= z < |s| && s[z] == 0;
    while IsSpace(s[p])
      invariant p <= z && Parsed(s[p..]) == Parsed(s)
      decreases z - p
    {
      ParsedStep(s[p..]);
      assert s[p..][1..] == s[p + 1..];
      p := p + 1;
    }
    ghost var digits := DigitRun(s[p..]);
    ParsedStep(s[p..]);
    assert digits[..0] == [];
    var i := 0;
    while s[p + i] != 0
      invariant i <= |digits| && p + i <= z
      invariant result == Value(digits[..i], 10) < TWO_31
      decreases z - i
    {
      assert s[p..][i] == s[p + i];
      if IsDigit(s[p + i]) {
        PartOfRun(digits, i);
        result := result * 10;
        result := result + (s[p + i] - 48);
      } else {
        break;
      }
      i := i + 1;
    }
    assert s[p..][i] == s[p + i];
    assert digits[..i] == digits;
  }
}
