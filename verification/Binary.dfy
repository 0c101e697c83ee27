/** Binary numerals and the Gray code, from rad_util.py. */
module Binary {
  import opened Lists

  datatype Result<+T> = Success(value: T) | KeyError | ValueError

  function Pow2(n: nat): (p: nat)
    ensures p >= 1
  {
    if n == 0 then 1 else 2 * Pow2(n - 1)
  }

  ghost predicate IsBits(s: string) {
    forall i :: 0 <= i < |s| ==> s[i] == '0' || s[i] == '1'
  }

  // The number written by a numeral, most significant digit first.
  function Value(s: string): nat {
    if s == "" then 0
    else 2 * Value(s[..|s| - 1]) + if s[|s| - 1] == '1' then 1 else 0
  }

  // The n low bits of k, most significant first.
  function Bits(k: nat, n: nat): (s: string)
    ensures |s| == n && IsBits(s)
  {
    if n == 0 then "" else Bits(k / 2, n - 1) + [if k % 2 == 1 then '1' else '0']
  }

  lemma {:induction false} ValueOfBits(k: nat, n: nat)
    requires k < Pow2(n)
    ensures Value(Bits(k, n)) == k
  {
    if n > 0 {
      ValueOfBits(k / 2, n - 1);
      assert Bits(k, n)[..n - 1] == Bits(k / 2, n - 1);
    }
  }

  lemma {:induction false} BitsOfValue(s: string)
    requires IsBits(s)
    ensures Value(s) < Pow2(|s|) && Bits(Value(s), |s|) == s
  {
    if s != "" {
      BitsOfValue(s[..|s| - 1]);
      assert s == s[..|s| - 1] + [s[|s| - 1]];
    }
  }

  lemma {:induction false} ValueOfConcat(a: string, b: string)
    ensures Value(a + b) == Value(a) * Pow2(|b|) + Value(b)
  {
    if b == "" {
      assert a + b == a;
    } else {
      var n := |b| - 1;
      ValueOfConcat(a, b[..n]);
      assert (a + b)[..|a + b| - 1] == a + b[..n];
      assert 2 * (Value(a) * Pow2(n)) == Value(a) * Pow2(n + 1);
    }
  }

  lemma {:induction false} ValueZero(s: string)
    requires IsBits(s)
    ensures Value(s) == 0 <==> '1' !in s
  {
    if s != "" {
      ValueZero(s[..|s| - 1]);
      assert s == s[..|s| - 1] + [s[|s| - 1]];
    }
  }

  lemma {:induction false} Pow2Grows(m: nat, n: nat)
    requires m <= n
    ensures Pow2(m) <= Pow2(n)
  {
    if m < n {
      Pow2Grows(m, n - 1);
    }
  }

  // ---- int2bin and bin2int

  function HexDigit(d: nat): char
    requires d < 16
  {
    "0123456789abcdef"[d]
  }

  function HexDigits(i: nat): string {
    if i < 16 then [HexDigit(i)] else HexDigits(i / 16) + [HexDigit(i % 16)]
  }

  // What Python's hex gives; longs carry an L at the end.
  function Hex(i: int, long: bool): string {
    (if i < 0 then "-0x" + HexDigits(-i) else "0x" + HexDigits(i)) + if long then "L" else ""
  }

  function LowerChar(c: char): char {
    if 'A' <= c <= 'Z' then c + 32 as char else c
  }

  function Lower(s: string): (r: string)
    ensures |r| == |s|
  {
    if s == "" then "" else Lower(s[..|s| - 1]) + [LowerChar(s[|s| - 1])]
  }

  function Remove(s: string, c: char): string {
    if s == "" then "" else Remove(s[..|s| - 1], c) + if s[|s| - 1] == c then "" else [s[|s| - 1]]
  }

  const HEX2BIN: map<char, string> := map[
    '0' := "0000", '1' := "0001", '2' := "0010", '3' := "0011",
    '4' := "0100", '5' := "0101", '6' := "0110", '7' := "0111",
    '8' := "1000", '9' := "1001", 'a' := "1010", 'b' := "1011",
    'c' := "1100", 'd' := "1101", 'e' := "1110", 'f' := "1111"]

  function Nibbles(s: string): Result<string> {
    if s == "" then Success("")
    else
      match Nibbles(s[..|s| - 1])
      case Success(front) =>
        if s[|s| - 1] in HEX2BIN then Success(front + HEX2BIN[s[|s| - 1]]) else KeyError
      case error => error
  }

  function Zeros(n: int): string {
    if n <= 0 then "" else Zeros(n - 1) + "0"
  }

  // A width of zero makes both slices run from the start: nothing is cut off or checked.
  function Int2bin(i: int, long: bool, n: nat): Result<string> {
    var digits := Remove(Lower(Hex(i, long)), 'l');
    match Nibbles(if |digits| >= 2 then digits[2..] else "")
    case Success(result) => Fit(result, n)
    case error => error
  }

  // Cuts off what is beyond the width, which must be zeros, and pads to the width.
  function Fit(result: string, n: nat): Result<string> {
    var cut := if n == 0 || |result| < n then 0 else |result| - n;
    if '1' in result[..cut] then ValueError
    else Success(Zeros(n - |result[cut..]|) + result[cut..])
  }

  predicate IsBlank(c: char) {
    c == ' ' || '\t' <= c <= '\r'
  }

  function Strip(s: string): string {
    if s != "" && IsBlank(s[0]) then Strip(s[1..])
    else if s != "" && IsBlank(s[|s| - 1]) then Strip(s[..|s| - 1])
    else s
  }

  predicate AllDigits(s: string) {
    s != "" && forall i :: 0 <= i < |s| ==> s[i] in "01"
  }

  // Digits that may have a prefix 0b.
  function Unsigned(s: string): Result<nat> {
    var digits := if "0b" <= s || "0B" <= s then s[2..] else s;
    if AllDigits(digits) then Success(Value(digits)) else ValueError
  }

  // Digits that may have a sign and, behind it, a prefix.
  function Literal(s: string): Result<int> {
    if s == "" || (s[0] != '+' && s[0] != '-') then Unsigned(s)
    else
      match Unsigned(s[1..])
      case Success(k) => Success(Negated(s[0] == '-', k))
      case _ => ValueError
  }

  function Negated(minus: bool, k: int): int {
    if minus then -k else k
  }

  // What int(s, 2) reads: a literal with blanks around it.
  function Bin2int(s: string): Result<int> {
    Literal(Strip(s))
  }

  lemma NibbleValue(d: nat)
    requires d < 16
    ensures HexDigit(d) in HEX2BIN
    ensures var s := HEX2BIN[HexDigit(d)]; |s| == 4 && IsBits(s) && Value(s) == d
  {
    var s := HEX2BIN[HexDigit(d)];
    assert s[..4] == s;
    assert s[..3][..2] == s[..2] && s[..2][..1] == s[..1] && s[..1][..0] == "";
    assert Value(s[..1]) == if s[0] == '1' then 1 else 0;
    assert Value(s[..2]) == 2 * Value(s[..1]) + if s[1] == '1' then 1 else 0;
    assert Value(s[..3]) == 2 * Value(s[..2]) + if s[2] == '1' then 1 else 0;
  }

  lemma {:induction false} NibblesOfHex(i: nat)
    ensures Nibbles(HexDigits(i)).Success?
    ensures var s := Nibbles(HexDigits(i)).value; IsBits(s) && Value(s) == i
  {
    if i < 16 {
      NibbleValue(i);
      assert HexDigits(i)[..0] == "";
      assert "" + HEX2BIN[HexDigit(i)] == HEX2BIN[HexDigit(i)];
    } else {
      NibblesOfHex(i / 16);
      assert HexDigits(i)[..|HexDigits(i)| - 1] == HexDigits(i / 16);
      AppendNibble(HexDigits(i / 16), i / 16, i % 16);
    }
  }

  lemma AppendNibble(s: string, i: nat, d: nat)
    requires d < 16 && Nibbles(s).Success? && IsBits(Nibbles(s).value) && Value(Nibbles(s).value) == i
    ensures var t := Nibbles(s + [HexDigit(d)]); t.Success? && IsBits(t.value) && Value(t.value) == 16 * i + d
  {
    NibbleValue(d);
    assert (s + [HexDigit(d)])[..|s|] == s;
    assert Pow2(4) == 16;
    hide Value, HexDigit;
    ValueOfConcat(Nibbles(s).value, HEX2BIN[HexDigit(d)]);
  }

  lemma {:induction false} HexIsLower(i: nat)
    ensures Lower(HexDigits(i)) == HexDigits(i) && Remove(HexDigits(i), 'l') == HexDigits(i)
  {
    if i < 16 {
      LowerEmpty();
      AppendLower("", i);
      assert "" + [HexDigit(i)] == [HexDigit(i)];
    } else {
      HexIsLower(i / 16);
      AppendLower(HexDigits(i / 16), i % 16);
    }
  }

  lemma AppendLower(s: string, d: nat)
    requires d < 16
    ensures Lower(s + [HexDigit(d)]) == Lower(s) + [HexDigit(d)]
    ensures Remove(s + [HexDigit(d)], 'l') == Remove(s, 'l') + [HexDigit(d)]
  {
    hide Lower, Remove;
    LowerAppend(s, HexDigit(d));
  }

  lemma {:induction false} LowerConcat(a: string, b: string)
    ensures Lower(a + b) == Lower(a) + Lower(b)
    ensures Remove(a + b, 'l') == Remove(a, 'l') + Remove(b, 'l')
  {
    LowerEmpty();
    hide Lower, Remove, LowerChar;
    if b == "" {
      assert a + b == a;
    } else {
      var front, c := b[..|b| - 1], b[|b| - 1];
      LowerConcat(a, front);
      LowerAppend(a + front, c);
      LowerAppend(front, c);
      assert b == front + [c];
      assert a + b == a + front + [c];
    }
  }

  lemma LowerEmpty()
    ensures Lower("") == "" && Remove("", 'l') == ""
  {
  }

  lemma LowerAppend(s: string, c: char)
    ensures Lower(s + [c]) == Lower(s) + [LowerChar(c)]
    ensures Remove(s + [c], 'l') == Remove(s, 'l') + if c == 'l' then "" else [c]
  {
    assert (s + [c])[..|s|] == s;
  }

  lemma HexCleaned(i: int, long: bool)
    ensures Remove(Lower(Hex(i, long)), 'l') == if i < 0 then "-0x" + HexDigits(-i) else "0x" + HexDigits(i)
  {
    CleanedAffixes();
    hide Lower, Remove;
    var sign, suffix := if i < 0 then "-0x" else "0x", if long then "L" else "";
    var digits := HexDigits(if i < 0 then -i else i);
    HexIsLower(if i < 0 then -i else i);
    LowerConcat(sign + digits, suffix);
    LowerConcat(sign, digits);
    LowerConcat(sign + digits, Lower(suffix));
  }

  lemma CleanedAffixes()
    ensures Lower("0x") == "0x" && Lower("-0x") == "-0x" && Lower("L") == "l" && Lower("") == ""
    ensures Remove("0x", 'l') == "0x" && Remove("-0x", 'l') == "-0x" && Remove("l", 'l') == "" && Remove("", 'l') == ""
  {
    LowerEmpty();
    hide Lower, Remove;
    assert "" + ['0'] == "0" && "0" + ['x'] == "0x";
    assert "" + ['-'] == "-" && "-" + ['0'] == "-0" && "-0" + ['x'] == "-0x";
    assert "" + ['L'] == "L" && "" + ['l'] == "l";
    LowerAppend("", '0');
    LowerAppend("0", 'x');
    LowerAppend("", '-');
    LowerAppend("-", '0');
    LowerAppend("-0", 'x');
    LowerAppend("", 'L');
    LowerAppend("", 'l');
  }

  // Negative numbers leave the x of the prefix in the digits, which the table does not know.
  lemma {:induction false} NibblesOfPrefixed(digits: string)
    ensures Nibbles("x" + digits) == KeyError
  {
    if digits == "" {
      assert "x" + digits == "x" && "x"[..0] == "";
    } else {
      NibblesOfPrefixed(digits[..|digits| - 1]);
      assert ("x" + digits)[..|digits|] == "x" + digits[..|digits| - 1];
    }
  }

  lemma {:induction false} ZerosValue(n: int)
    ensures IsBits(Zeros(n)) && Value(Zeros(n)) == 0 && |Zeros(n)| == if n < 0 then 0 else n
  {
    if n > 0 {
      ZerosValue(n - 1);
      assert Zeros(n)[..n - 1] == Zeros(n - 1);
    }
  }

  // For every width of at least one: the numeral of that width, or the error that Python raises.
  lemma Int2binSpec(i: int, long: bool, n: nat)
    requires n >= 1
    ensures Int2bin(i, long, n) ==
              if i < 0 then KeyError else if i < Pow2(n) then Success(Bits(i, n)) else ValueError
  {
    if i < 0 {
      Int2binNegative(i, long, n);
    } else {
      Int2binNatural(i, long, n);
    }
  }

  lemma Int2binNegative(i: int, long: bool, n: nat)
    requires i < 0
    ensures Int2bin(i, long, n) == KeyError
  {
    hide Hex, Nibbles, HexDigits, Lower, Remove, Fit;
    HexCleaned(i, long);
    assert ("-0x" + HexDigits(-i))[2..] == "x" + HexDigits(-i);
    NibblesOfPrefixed(HexDigits(-i));
  }

  lemma Int2binNatural(i: nat, long: bool, n: nat)
    requires n >= 1
    ensures Int2bin(i, long, n) == if i < Pow2(n) then Success(Bits(i, n)) else ValueError
  {
    HexCleaned(i, long);
    assert ("0x" + HexDigits(i))[2..] == HexDigits(i);
    NibblesOfHex(i);
    hide Hex, Nibbles, HexDigits, Lower, Remove, Value, Bits, IsBits, Pow2, Fit;
    FitSpec(Nibbles(HexDigits(i)).value, n);
  }

  lemma FitSpec(result: string, n: nat)
    requires IsBits(result) && n >= 1
    ensures Fit(result, n) == if Value(result) < Pow2(n) then Success(Bits(Value(result), n)) else ValueError
  {
    hide Value, Bits, Zeros, Pow2, IsBits;
    CutNumeral(result, if |result| < n then 0 else |result| - n, n);
  }

  lemma CutNumeral(result: string, cut: nat, n: nat)
    requires IsBits(result) && n >= 1 && cut == if |result| < n then 0 else |result| - n
    ensures '1' in result[..cut] <==> Value(result) >= Pow2(n)
    ensures '1' !in result[..cut] ==> Zeros(n - |result[cut..]|) + result[cut..] == Bits(Value(result), n)
  {
    hide Value, Bits, Zeros;
    var head, tail := result[..cut], result[cut..];
    assert result == head + tail;
    ValueOfConcat(head, tail);
    ValueZero(head);
    BitsOfValue(tail);
    Pow2Grows(|tail|, n);
    if '1' in head {
      OneTooLarge(Value(head), n);
    } else {
      var padded := Zeros(n - |tail|) + tail;
      ZerosValue(n - |tail|);
      ValueOfConcat(Zeros(n - |tail|), tail);
      BitsOfValue(padded);
    }
  }

  lemma OneTooLarge(k: nat, n: nat)
    requires k >= 1
    ensures k * Pow2(n) >= Pow2(n)
  {
  }

  // int2bin and bin2int undo each other, and int2bin refuses exactly what does not fit.
  lemma Int2binRoundTrip(i: int, long: bool, n: nat)
    requires n >= 1
    ensures Int2bin(i, long, n).Success? <==> 0 <= i < Pow2(n)
    ensures Int2bin(i, long, n) == ValueError <==> i >= Pow2(n)
    ensures 0 <= i < Pow2(n) ==> |Int2bin(i, long, n).value| == n && Bin2int(Int2bin(i, long, n).value) == Success(i)
  {
    Int2binSpec(i, long, n);
    hide Int2bin, Bin2int, Value;
    if 0 <= i < Pow2(n) {
      ValueOfBits(i, n);
      PlainNumeral(Bits(i, n));
    }
  }

  // Of all strings that bin2int reads, int2bin gives back exactly the plain numerals.
  lemma Bin2intRoundTrip(s: string, long: bool)
    ensures (Bin2int(s).Success? && Int2bin(Bin2int(s).value, long, |s|) == Success(s)) <==> s != "" && IsBits(s)
  {
    PlainNumeral(s);
    hide Bin2int, Int2bin, Value, Bits, IsBits;
    if s != "" && IsBits(s) {
      BitsOfValue(s);
      Int2binSpec(Value(s), long, |s|);
    }
    if s != "" && Bin2int(s).Success? {
      Int2binSpec(Bin2int(s).value, long, |s|);
    }
  }

  lemma PlainNumeral(s: string)
    ensures s != "" && IsBits(s) ==> Bin2int(s) == Success(Value(s))
    ensures s == "" ==> Bin2int(s) == ValueError
  {
    if s != "" && IsBits(s) {
      Bin2intLiteral("", "", "", s, "");
      assert "" + ("" + ("" + s)) + "" == s;
    }
  }

  ghost predicate AllBlank(s: string) {
    forall i :: 0 <= i < |s| ==> IsBlank(s[i])
  }

  lemma StripStep(s: string, blank: char)
    requires IsBlank(blank)
    ensures Strip([blank] + s) == Strip(s)
    ensures s != "" && !IsBlank(s[0]) ==> Strip(s + [blank]) == Strip(s)
  {
    assert ([blank] + s)[1..] == s;
    assert (s + [blank])[..|s|] == s;
  }

  lemma StripNothing(s: string)
    requires s != "" && !IsBlank(s[0]) && !IsBlank(s[|s| - 1])
    ensures Strip(s) == s
  {
  }

  lemma {:induction false} StripAround(before: string, core: string, after: string)
    requires AllBlank(before) && AllBlank(after)
    requires core != "" && !IsBlank(core[0]) && !IsBlank(core[|core| - 1])
    ensures Strip(before + core + after) == core
    decreases |before| + |after|
  {
    hide Strip, IsBlank;
    if before != "" {
      StripAround(before[1..], core, after);
      StripStep(before[1..] + core + after, before[0]);
      assert before + core + after == [before[0]] + (before[1..] + core + after);
    } else if after != "" {
      var front, blank := after[..|after| - 1], after[|after| - 1];
      StripAround("", core, front);
      StripStep(core + front, blank);
      assert "" + core + front == core + front && before + core + after == core + front + [blank];
    } else {
      StripNothing(core);
      assert before + core + after == core;
    }
  }

  // Blanks and prefix do not change the number that is read, and a minus sign negates it.
  lemma Bin2intLiteral(before: string, sign: string, prefix: string, digits: string, after: string)
    requires AllBlank(before) && AllBlank(after) && sign in ["", "+", "-"] && prefix in ["", "0b", "0B"]
    requires digits != "" && IsBits(digits)
    ensures Bin2int(before + (sign + (prefix + digits)) + after) == Success(Negated(sign == "-", Value(digits)))
  {
    hide Strip, Literal, Unsigned, Value;
    var core := sign + (prefix + digits);
    PrefixedNumeral(prefix, digits);
    SignedNumeral(sign, prefix + digits, Value(digits));
    assert core[|core| - 1] == digits[|digits| - 1];
    StripAround(before, core, after);
  }

  ghost predicate IsLiteral(s: string, before: string, sign: string, prefix: string, digits: string, after: string) {
    && AllBlank(before) && AllBlank(after) && sign in ["", "+", "-"] && prefix in ["", "0b", "0B"]
    && digits != "" && IsBits(digits) && s == before + (sign + (prefix + digits)) + after
  }

  // Every other string is refused.
  lemma Bin2intAccepts(s: string)
    ensures Bin2int(s).Success? <==>
      exists before, sign, prefix, digits, after :: IsLiteral(s, before, sign, prefix, digits, after)
    ensures !Bin2int(s).Success? ==> Bin2int(s) == ValueError
  {
    if before, sign, prefix, digits, after :| IsLiteral(s, before, sign, prefix, digits, after) {
      Bin2intLiteral(before, sign, prefix, digits, after);
    }
    if Bin2int(s).Success? {
      hide Strip, Literal, IsLiteral;
      var before, after := StripParts(s);
      var sign, prefix, digits := LiteralParts(Strip(s));
      LiteralFound(s, before, sign, prefix, digits, after);
    }
  }

  lemma LiteralFound(s: string, before: string, sign: string, prefix: string, digits: string, after: string)
    requires AllBlank(before) && AllBlank(after) && sign in ["", "+", "-"] && prefix in ["", "0b", "0B"]
    requires digits != "" && IsBits(digits) && s == before + (sign + (prefix + digits)) + after
    ensures exists before, sign, prefix, digits, after :: IsLiteral(s, before, sign, prefix, digits, after)
  {
    assert IsLiteral(s, before, sign, prefix, digits, after);
  }

  lemma Around(c: char, before: string, core: string, after: string)
    ensures [c] + (before + core + after) == [c] + before + core + after
    ensures before + core + after + [c] == before + core + (after + [c])
  {
  }

  lemma {:induction false} StripParts(s: string) returns (before: string, after: string)
    ensures s == before + Strip(s) + after && AllBlank(before) && AllBlank(after)
    decreases |s|
  {
    hide IsBlank;
    before, after := "", "";
    assert s == "" + s + "";
    if s != "" && IsBlank(s[0]) {
      var before', after' := StripParts(s[1..]);
      before, after := [s[0]] + before', after';
      Around(s[0], before', Strip(s), after');
      assert s == [s[0]] + s[1..];
    } else if s != "" && IsBlank(s[|s| - 1]) {
      var before', after' := StripParts(s[..|s| - 1]);
      before, after := before', after' + [s[|s| - 1]];
      Around(s[|s| - 1], before', Strip(s), after');
      assert s == s[..|s| - 1] + [s[|s| - 1]];
    }
  }

  lemma LiteralParts(t: string) returns (sign: string, prefix: string, digits: string)
    requires Literal(t).Success?
    ensures t == sign + (prefix + digits) && sign in ["", "+", "-"] && prefix in ["", "0b", "0B"]
    ensures digits != "" && IsBits(digits)
  {
    hide Unsigned, IsBits;
    if t == "" || (t[0] != '+' && t[0] != '-') {
      sign := "";
      prefix, digits := UnsignedParts(t);
    } else {
      sign := [t[0]];
      prefix, digits := UnsignedParts(t[1..]);
    }
    assert t == sign + t[|sign|..];
  }

  lemma UnsignedParts(number: string) returns (prefix: string, digits: string)
    requires Unsigned(number).Success?
    ensures number == prefix + digits && prefix in ["", "0b", "0B"] && digits != "" && IsBits(digits)
  {
    hide Value;
    prefix := if "0b" <= number then "0b" else if "0B" <= number then "0B" else "";
    digits := number[|prefix|..];
    assert AllDigits(digits);
  }

  lemma PrefixedNumeral(prefix: string, digits: string)
    requires prefix in ["", "0b", "0B"] && digits != "" && IsBits(digits)
    ensures Unsigned(prefix + digits) == Success(Value(digits))
    ensures (prefix + digits)[0] == '0' || (prefix + digits)[0] == '1'
  {
    hide Value;
    if prefix == "" {
      assert prefix + digits == digits;
      assert |digits| > 1 ==> digits[1] == '0' || digits[1] == '1';
    } else {
      assert (prefix + digits)[2..] == digits;
    }
  }

  lemma SignedNumeral(sign: string, number: string, k: nat)
    requires sign in ["", "+", "-"] && number != "" && (number[0] == '0' || number[0] == '1')
    requires Unsigned(number) == Success(k)
    ensures Literal(sign + number) == Success(Negated(sign == "-", k))
    ensures !IsBlank((sign + number)[0])
  {
    hide Unsigned;
    if sign == "" {
      assert sign + number == number;
    } else {
      assert (sign + number)[1..] == number;
    }
  }

  // At width zero every number comes back in full, whatever its size.
  lemma Int2binZeroWidth(i: nat, long: bool)
    ensures Int2bin(i, long, 0).Success? && Value(Int2bin(i, long, 0).value) == i
  {
    HexCleaned(i, long);
    assert ("0x" + HexDigits(i))[2..] == HexDigits(i);
    NibblesOfHex(i);
    var result := Nibbles(HexDigits(i)).value;
    assert Zeros(0 - |result|) + result == result;
  }

  // ---- binary_range

  function Reverse(s: string): (r: string)
    ensures |r| == |s|
  {
    if s == "" then "" else Reverse(s[1..]) + [s[0]]
  }

  // The number held by digits with the least significant one first.
  ghost function LowValue(s: string): nat {
    if s == "" then 0 else (if s[0] == '1' then 1 else 0) + 2 * LowValue(s[1..])
  }

  lemma {:induction false} ReverseIsBits(s: string)
    requires IsBits(s)
    ensures LowValue(s) < Pow2(|s|) && Reverse(s) == Bits(LowValue(s), |s|)
  {
    if s != "" {
      ReverseIsBits(s[1..]);
    }
  }

  lemma {:induction false} LowValueZero(s: string)
    requires forall j :: 0 <= j < |s| ==> s[j] == '0'
    ensures LowValue(s) == 0
  {
    if s != "" {
      LowValueZero(s[1..]);
    }
  }

  // The first i digits were ones and have been flipped to zero; the others are as they were.
  ghost predicate Carried(before: string, now: string, i: nat) {
    && i <= |before| == |now|
    && (forall j :: 0 <= j < i ==> before[j] == '1' && now[j] == '0')
    && (forall j :: i <= j < |now| ==> now[j] == before[j])
  }

  // The carry was absorbed by a zero at position c.
  ghost predicate Absorbed(before: string, now: string, c: nat) {
    && c < |before| == |now|
    && (forall j :: 0 <= j < c ==> before[j] == '1' && now[j] == '0')
    && before[c] == '0' && now[c] == '1'
    && (forall j :: c < j < |now| ==> now[j] == before[j])
  }

  lemma {:induction false} AbsorbedIncrements(before: string, now: string, c: nat)
    requires Absorbed(before, now, c)
    ensures LowValue(now) == LowValue(before) + 1
  {
    if c == 0 {
      assert now[1..] == before[1..];
    } else {
      AbsorbedIncrements(before[1..], now[1..], c - 1);
    }
  }

  lemma {:induction false} CarriedOut(before: string, now: string)
    requires Carried(before, now, |before|)
    ensures LowValue(before) + 1 == Pow2(|before|)
  {
    if before != "" {
      CarriedOut(before[1..], now[1..]);
    }
  }

  // Ripples a carry through the digits; toggle[i] tells whether it has reached digit i.
  method Increment(v: array<char>, toggle: array<int>)
    requires toggle.Length == v.Length + 1 && v as object != toggle as object
    requires IsBits(v[..])
    requires toggle[0] == 1 && forall j :: 0 < j < toggle.Length ==> toggle[j] == 0
    modifies v, toggle
    ensures IsBits(v[..])
    ensures toggle[v.Length] == 1 ==> LowValue(old(v[..])) + 1 == Pow2(v.Length)
    ensures toggle[v.Length] != 1 ==> LowValue(v[..]) == LowValue(old(v[..])) + 1
  {
    ghost var before := v[..];
    var bits := v.Length;
    var i := 0;
    while i < bits && toggle[i] == 1
      invariant 0 <= i <= bits
      invariant forall j :: i < j <= bits ==> toggle[j] == 0
      invariant toggle[i] == 1 ==> Carried(before, v[..], i)
      invariant toggle[i] != 1 ==> i > 0 && toggle[i] == 0 && Absorbed(before, v[..], i - 1)
    {
      assert v[i] == v[..][i] == before[i];
      if v[i] == '0' {
        v[i] := '1';
        toggle[i + 1] := 0;
      } else {
        v[i] := '0';
        toggle[i + 1] := 1;
      }
      i := i + 1;
    }
    if toggle[i] == 1 {
      CarriedOut(before, v[..]);
    } else {
      AbsorbedIncrements(before, v[..], i - 1);
    }
  }

  ghost function NumeralsOf(n: nat): seq<string> {
    seq(Pow2(n), k requires k >= 0 => Bits(k, n))
  }

  // All numerals of the given width in order; the empty list for width zero.
  method BinaryRange(bits: nat) returns (l: seq<string>)
    ensures bits == 0 ==> l == []
    ensures bits >= 1 ==> l == NumeralsOf(bits) && |l| == Pow2(bits)
    ensures forall k :: 0 <= k < |l| ==> Int2bin(k, false, bits) == Success(l[k])
  {
    hide Reverse, Bits, LowValue, Pow2, Int2bin, NumeralsOf;
    l := [];
    var v := new char[bits](_ => '0');
    var toggle := new int[bits + 1](k => if k == 0 then 1 else 0);
    LowValueZero(v[..]);
    while toggle[bits] != 1
      invariant fresh(v) && fresh(toggle)
      invariant v.Length == bits && toggle.Length == bits + 1
      invariant IsBits(v[..])
      invariant toggle[bits] != 1 ==> bits >= 1 && LowValue(v[..]) == |l| < Pow2(bits)
      invariant toggle[bits] == 1 ==> if bits == 0 then l == [] else |l| == Pow2(bits)
      invariant forall k :: 0 <= k < |l| ==> l[k] == Bits(k, bits)
      decreases toggle[bits] != 1, Pow2(bits) - |l|
    {
      ReverseIsBits(v[..]);
      l := l + [Reverse(v[..])];
      toggle := new int[bits + 1](k => if k == 0 then 1 else 0);
      Increment(v, toggle);
      ReverseIsBits(v[..]);
    }
    if bits >= 1 {
      NumeralsInOrder(l, bits);
    }
  }

  lemma NumeralsInOrder(l: seq<string>, n: nat)
    requires n >= 1 && |l| == Pow2(n) && forall k :: 0 <= k < |l| ==> l[k] == Bits(k, n)
    ensures l == NumeralsOf(n)
    ensures forall k :: 0 <= k < |l| ==> Int2bin(k, false, n) == Success(l[k])
  {
    hide Bits, Int2bin, Pow2;
    forall k | 0 <= k < |l| ensures Int2bin(k, false, n) == Success(l[k]) {
      Int2binSpec(k, false, n);
    }
  }

  // ---- Gray codes

  function Magnitude(a: int): nat {
    if a < 0 then -a - 1 else a
  }

  // Exclusive or of two's complement integers of unlimited width.
  function Xor(a: int, b: int): (x: int)
    ensures a >= 0 && b >= 0 ==> x >= 0
    decreases Magnitude(a) + Magnitude(b)
  {
    if Magnitude(a) == 0 && Magnitude(b) == 0 then if a == b then 0 else -1
    else 2 * Xor(a / 2, b / 2) + if a % 2 == b % 2 then 0 else 1
  }

  function GrayEncode(i: int): (g: int)
    ensures i >= 0 ==> g >= 0
  {
    Xor(i, i / 2)
  }

  lemma GrayStep(i: nat)
    ensures GrayEncode(i) == 2 * GrayEncode(i / 2) + if i % 2 == (i / 2) % 2 then 0 else 1
  {
  }

  lemma {:induction false} GrayRange(i: nat, n: nat)
    requires i < Pow2(n)
    ensures 0 <= GrayEncode(i) < Pow2(n)
  {
    GrayStep(i);
    if n > 0 {
      GrayRange(i / 2, n - 1);
    }
  }

  lemma {:induction false} XorOfComplements(a: int, b: int)
    ensures Xor(-1 - a, -1 - b) == Xor(a, b)
    decreases Magnitude(a) + Magnitude(b)
  {
    if Magnitude(a) + Magnitude(b) > 0 {
      XorOfComplements(a / 2, b / 2);
      assert (-1 - a) / 2 == -1 - a / 2 && (-1 - b) / 2 == -1 - b / 2;
    }
  }

  // A negative number has the code of its complement.
  lemma GrayOfNegative(i: nat)
    ensures GrayEncode(-1 - i) == GrayEncode(i)
  {
    XorOfComplements(i, i / 2);
    assert (-1 - i) / 2 == -1 - i / 2;
  }

  // The first digit of a code is that of the number, and every other tells whether the number has
  // different digits there and before.
  lemma {:induction false} GrayDigits(k: nat, n: nat)
    requires n >= 1 && k < Pow2(n)
    ensures Bits(GrayEncode(k), n)[0] == Bits(k, n)[0]
    ensures forall j :: 0 < j < n ==> (Bits(GrayEncode(k), n)[j] == '1' <==> Bits(k, n)[j] != Bits(k, n)[j - 1])
  {
    GrayStep(k);
    hide GrayEncode;
    var code, half := GrayEncode(k), GrayEncode(k / 2);
    assert code / 2 == half && (code % 2 == 1 <==> k % 2 != (k / 2) % 2);
    assert Bits(code, n) == Bits(half, n - 1) + [if code % 2 == 1 then '1' else '0'];
    assert Bits(k, n) == Bits(k / 2, n - 1) + [if k % 2 == 1 then '1' else '0'];
    if n > 1 {
      GrayDigits(k / 2, n - 1);
      LastDigit(k / 2, n - 1);
    }
    hide Bits;
  }

  lemma LastDigit(k: nat, n: nat)
    requires n >= 1
    ensures Bits(k, n)[n - 1] == '1' <==> k % 2 == 1
  {
  }

  lemma {:induction false} GrayInjective(i: nat, j: nat)
    requires GrayEncode(i) == GrayEncode(j)
    ensures i == j
  {
    GrayStep(i);
    GrayStep(j);
    if i > 0 && j > 0 {
      GrayInjective(i / 2, j / 2);
    } else if i > 0 {
      GrayPositive(i);
    } else if j > 0 {
      GrayPositive(j);
    }
  }

  lemma {:induction false} GrayPositive(i: nat)
    requires i > 0
    ensures GrayEncode(i) > 0
  {
    GrayStep(i);
    if i > 1 {
      GrayPositive(i / 2);
    }
  }

  // The codes of 2 * m and 2 * m + 1 extend the code of m by one digit.
  lemma GrayPair(m: nat)
    ensures GrayEncode(2 * m) == 2 * GrayEncode(m) + m % 2
    ensures GrayEncode(2 * m + 1) == 2 * GrayEncode(m) + 1 - m % 2
  {
    hide GrayEncode;
    assert (2 * m) / 2 == m == (2 * m + 1) / 2 && (2 * m) % 2 == 0 && (2 * m + 1) % 2 == 1;
    GrayStep(2 * m);
    GrayStep(2 * m + 1);
  }

  lemma {:induction false} GraySurjective(g: nat, n: nat) returns (i: nat)
    requires g < Pow2(n)
    ensures i < Pow2(n) && GrayEncode(i) == g
  {
    hide GrayEncode;
    if n == 0 {
      i := 0;
      GrayStep(0);
    } else {
      var half := GraySurjective(g / 2, n - 1);
      i := GrayExtends(half, g);
    }
  }

  lemma GrayExtends(half: nat, g: nat) returns (i: nat)
    requires GrayEncode(half) == g / 2
    ensures i / 2 == half && GrayEncode(i) == g
  {
    hide GrayEncode;
    GrayPair(half);
    i := 2 * half + if g % 2 == half % 2 then 0 else 1;
  }

  // The number of places at which two lists of one length differ.
  ghost function Differences(s: string, t: string): nat
    requires |s| == |t|
  {
    if s == "" then 0
    else Differences(s[..|s| - 1], t[..|t| - 1]) + if s[|s| - 1] == t[|t| - 1] then 0 else 1
  }

  lemma {:induction false} NoDifference(s: string)
    ensures Differences(s, s) == 0
  {
    if s != "" {
      NoDifference(s[..|s| - 1]);
    }
  }

  lemma DifferencesStep(a: nat, c: nat, b: nat, d: nat, n: nat)
    requires n > 0 && c < 2 && d < 2
    ensures Differences(Bits(2 * a + c, n), Bits(2 * b + d, n))
         == Differences(Bits(a, n - 1), Bits(b, n - 1)) + if c == d then 0 else 1
  {
    BitsStep(a, c, n);
    BitsStep(b, d, n);
    hide Bits;
    DifferencesAppend(Bits(a, n - 1), Bits(b, n - 1), Bits(2 * a + c, n)[n - 1], Bits(2 * b + d, n)[n - 1]);
  }

  lemma BitsStep(a: nat, c: nat, n: nat)
    requires n > 0 && c < 2
    ensures Bits(2 * a + c, n) == Bits(a, n - 1) + [if c == 1 then '1' else '0']
  {
  }

  lemma DifferencesAppend(s: string, t: string, x: char, y: char)
    requires |s| == |t|
    ensures Differences(s + [x], t + [y]) == Differences(s, t) + if x == y then 0 else 1
  {
    assert (s + [x])[..|s|] == s && (t + [y])[..|t|] == t;
  }

  // How the numerals of 2 * i + p and 2 * j + q differ, for digits p and q.
  lemma GrayDifference(i: nat, p: nat, j: nat, q: nat, n: nat)
    requires n > 0 && p < 2 && q < 2
    ensures Differences(Bits(GrayEncode(2 * i + p), n), Bits(GrayEncode(2 * j + q), n))
         == Differences(Bits(GrayEncode(i), n - 1), Bits(GrayEncode(j), n - 1))
            + if (i + p) % 2 == (j + q) % 2 then 0 else 1
  {
    GrayPair(i);
    GrayPair(j);
    hide GrayEncode, Differences, Bits;
    DifferencesStep(GrayEncode(i), (i + p) % 2, GrayEncode(j), (j + q) % 2, n);
  }

  lemma {:induction false} GrayNeighbours(k: nat, n: nat)
    requires k + 1 < Pow2(n)
    ensures Differences(Bits(GrayEncode(k), n), Bits(GrayEncode(k + 1), n)) == 1
  {
    hide GrayEncode, Differences, Bits;
    var m := k / 2;
    if k % 2 == 0 {
      GrayDifference(m, 0, m, 1, n);
      NoDifference(Bits(GrayEncode(m), n - 1));
    } else {
      GrayDifference(m, 1, m + 1, 0, n);
      GrayNeighbours(m, n - 1);
    }
  }

  lemma {:induction false} GrayWraps(n: nat)
    requires n >= 1
    ensures Differences(Bits(GrayEncode(Pow2(n) - 1), n), Bits(GrayEncode(0), n)) == 1
  {
    hide GrayEncode, Differences, Bits;
    if n == 1 {
      OneDigitWraps();
    } else {
      var m := Pow2(n - 1) - 1;
      assert m == 2 * (Pow2(n - 2) - 1) + 1;
      GrayDifference(m, 1, 0, 0, n);
      GrayWraps(n - 1);
    }
  }

  lemma OneDigitWraps()
    ensures Differences(Bits(GrayEncode(1), 1), Bits(GrayEncode(0), 1)) == 1
  {
    assert GrayEncode(1) == 1 && GrayEncode(0) == 0;
    DifferencesStep(0, 1, 0, 0, 1);
    assert Differences("", "") == 0;
  }

  // The numerals of the Gray codes are a rearrangement of all numerals of their width, and
  // neighbours, with the last and the first, differ at exactly one place.
  lemma GrayCode(n: nat, gray: seq<string>)
    requires n >= 1 && |gray| == Pow2(n)
    requires forall k :: 0 <= k < Pow2(n) ==> Int2bin(GrayEncode(k), false, n) == Success(gray[k])
    ensures multiset(gray) == multiset(NumeralsOf(n))
    ensures forall k :: 0 <= k < |gray| ==> |gray[k]| == n
    ensures forall k :: 0 <= k < Pow2(n) - 1 ==> Differences(gray[k], gray[k + 1]) == 1
    ensures Differences(gray[Pow2(n) - 1], gray[0]) == 1
  {
    forall k | 0 <= k < Pow2(n)
      ensures 0 <= GrayEncode(k) < Pow2(n) && gray[k] == Bits(GrayEncode(k), n)
      ensures Value(gray[k]) == GrayEncode(k)
    {
      GrayRange(k, n);
      Int2binSpec(GrayEncode(k), false, n);
      ValueOfBits(GrayEncode(k), n);
    }
    forall k | 0 <= k < Pow2(n) - 1 ensures Differences(gray[k], gray[k + 1]) == 1 {
      GrayNeighbours(k, n);
    }
    GrayWraps(n);
    GrayRearranges(n, gray);
  }

  lemma GrayRearranges(n: nat, gray: seq<string>)
    requires |gray| == Pow2(n)
    requires forall k :: 0 <= k < Pow2(n) ==>
               && 0 <= GrayEncode(k) < Pow2(n) && gray[k] == Bits(GrayEncode(k), n)
               && Value(gray[k]) == GrayEncode(k)
    ensures multiset(gray) == multiset(NumeralsOf(n))
  {
    var all := NumeralsOf(n);
    forall i, j | 0 <= i < j < |gray| ensures gray[i] != gray[j] {
      if GrayEncode(i) == GrayEncode(j) {
        GrayInjective(i, j);
      }
    }
    forall i, j | 0 <= i < j < |all| ensures all[i] != all[j] {
      ValueOfBits(i, n);
      ValueOfBits(j, n);
    }
    forall s | s in all ensures s in gray {
      var g :| 0 <= g < |all| && all[g] == s;
      var k := GraySurjective(g, n);
      assert gray[k] == s;
    }
    forall s | s in gray ensures s in all {
      var k :| 0 <= k < |gray| && gray[k] == s;
      assert all[GrayEncode(k)] == s;
    }
    SameSetSameBag(gray, all);
  }
}
