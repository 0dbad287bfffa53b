/** Numbers as `printf.c` writes them, and an independent reader for them. */
module PrintTheory {
  import opened Common

  // PAD_RIGHT and PAD_ZERO
  datatype Pad = Pad(right: bool, zero: bool)

  function Fill(c: char, n: nat): (s: string)
    ensures |s| == n && forall k | 0 <= k < n :: s[k] == c
  {
    seq(n, _ => c)
  }

  function Missing(s: string, width: nat): nat {
    if |s| >= width then 0 else width - |s|
  }

  // What prints emits
  function Padded(s: string, width: nat, pad: Pad): string {
    var fill := Fill(if pad.zero then '0' else ' ', Missing(s, width));
    if pad.right then s + fill else fill + s
  }

  // It is s, brought up to the width by blanks or zeros before or after it.
  lemma PaddedParts(s: string, width: nat, pad: Pad)
    ensures var t := Padded(s, width, pad);
      && |t| == (if width > |s| then width else |s|)
      && (pad.right ==> s <= t && forall k | |s| <= k < |t| :: t[k] == if pad.zero then '0' else ' ')
      && (!pad.right ==>
           t[|t| - |s|..] == s && forall k | 0 <= k < |t| - |s| :: t[k] == if pad.zero then '0' else ' ')
  {
  }

  // ----- Numerals

  predicate LetBase(c: char) {
    c == 'a' || c == 'A'
  }

  function DigitChar(t: nat, letbase: char): (c: char)
    requires t < 36 && LetBase(letbase)
  {
    if t < 10 then '0' + t as char else letbase + (t - 10) as char
  }

  // The digits of u in base b, none for 0
  function Numeral(u: nat, b: nat, letbase: char): string
    requires 2 <= b <= 36 && LetBase(letbase)
  {
    if u == 0 then "" else Numeral(u / b, b, letbase) + [DigitChar(u % b, letbase)]
  }

  // The digits are figures and letters of the case asked for.
  lemma {:induction false} NumeralLetters(u: nat, b: nat, letbase: char)
    requires 2 <= b <= 36 && LetBase(letbase)
    ensures forall k | 0 <= k < |Numeral(u, b, letbase)| ::
      '0' <= Numeral(u, b, letbase)[k] <= '9' ||
      (b > 10 && letbase as int <= Numeral(u, b, letbase)[k] as int < letbase as int + (b - 10))
  {
    hide Numeral, DigitChar;
    if u == 0 {
      NoDigits(b, letbase);
    } else {
      LastDigit(u, b, letbase);
      NumeralLetters(u / b, b, letbase);
      DigitLetter(u % b, b, letbase);
    }
  }

  lemma DigitLetter(t: nat, b: nat, letbase: char)
    requires t < b <= 36 && LetBase(letbase)
    ensures var c := DigitChar(t, letbase);
      '0' <= c <= '9' || (b > 10 && letbase as int <= c as int < letbase as int + (b - 10))
  {
  }

  lemma NoDigits(b: nat, letbase: char)
    requires 2 <= b <= 36 && LetBase(letbase)
    ensures Numeral(0, b, letbase) == ""
  {
  }

  function Power(b: nat, k: nat): nat {
    if k == 0 then 1 else b * Power(b, k - 1)
  }

  lemma QuotientBelow(u: nat, b: nat, p: nat)
    requires b > 0
    ensures u / b < p <==> u < b * p
  {
    assert u == b * (u / b) + u % b;
    if u / b < p {
      assert b * (u / b + 1) <= b * p by { Scale(b, u / b + 1, p); }
    } else {
      assert b * p <= b * (u / b) by { Scale(b, p, u / b); }
    }
  }

  lemma Scale(b: nat, x: nat, y: nat)
    requires x <= y
    ensures b * x <= b * y
  {
  }

  // u has at most k digits exactly when it is below b^k.
  lemma {:induction false} NumeralLengthIff(u: nat, b: nat, letbase: char, k: nat)
    requires 2 <= b <= 36 && LetBase(letbase)
    ensures |Numeral(u, b, letbase)| <= k <==> u < Power(b, k)
    decreases k
  {
    if k == 0 {
    } else if u == 0 {
      PowerPositive(b, k);
    } else {
      NumeralLengthIff(u / b, b, letbase, k - 1);
      QuotientBelow(u, b, Power(b, k - 1));
    }
  }

  lemma {:induction false} PowerPositive(b: nat, k: nat)
    requires b > 0
    ensures Power(b, k) > 0
  {
    if k > 0 {
      PowerPositive(b, k - 1);
    }
  }

  lemma {:induction false} PowerMonotone(a: nat, b: nat, k: nat)
    requires a <= b
    ensures Power(a, k) <= Power(b, k)
  {
    if k > 0 {
      PowerMonotone(a, b, k - 1);
      Scale(a, Power(a, k - 1), Power(b, k - 1));
      Scale(Power(b, k - 1), a, b);
    }
  }

  lemma Powers()
    ensures Power(7, 11) == 1977326743 && Power(8, 11) == 0x2_0000_0000 && Power(10, 10) == 10000000000
  {
    assert Power(7, 4) == 2401 && Power(7, 8) == 5764801;
    assert Power(8, 4) == 4096 && Power(8, 8) == 0x100_0000;
    assert Power(10, 4) == 10000 && Power(10, 8) == 100000000;
  }

  const PRINT_BUF_LEN: nat := 12

  // The digits of every 32-bit value and the terminator fit the buffer exactly in base 8 and above.
  lemma BufferSufficesIff(b: nat, letbase: char)
    requires 2 <= b <= 36 && LetBase(letbase)
    ensures (forall u: nat | u < 0x1_0000_0000 :: |Numeral(u, b, letbase)| + 1 <= 12) <==> b >= 8
  {
    Powers();
    if b >= 8 {
      PowerMonotone(8, b, 11);
      forall u: nat | u < 0x1_0000_0000
        ensures |Numeral(u, b, letbase)| + 1 <= PRINT_BUF_LEN
      {
        NumeralLengthIff(u, b, letbase, 11);
      }
    } else {
      PowerMonotone(b, 7, 11);
      NumeralLengthIff(Power(b, 11), b, letbase, 11);
    }
  }

  // ----- What printi emits

  predicate Int32(i: int) {
    -0x8000_0000 <= i < 0x8000_0000
  }

  predicate Negative(i: int, b: nat, sg: bool) {
    sg && b == 10 && i < 0
  }

  // The unsigned value that is converted to digits
  function Magnitude(i: int, b: nat, sg: bool): nat {
    if Negative(i, b, sg) then -i else i % 0x1_0000_0000
  }

  function Digits(i: int, b: nat, sg: bool, letbase: char): string
    requires 2 <= b <= 36 && LetBase(letbase)
  {
    if i == 0 then "0" else Numeral(Magnitude(i, b, sg), b, letbase)
  }

  // The text without padding
  function Natural(i: int, b: nat, sg: bool, letbase: char): string
    requires 2 <= b <= 36 && LetBase(letbase)
  {
    (if Negative(i, b, sg) then "-" else "") + Digits(i, b, sg, letbase)
  }

  // Zero fill goes between the sign and the digits, all other fill around the text.
  function Formatted(i: int, b: nat, sg: bool, width: nat, pad: Pad, letbase: char): string
    requires 2 <= b <= 36 && LetBase(letbase)
  {
    var digits := Digits(i, b, sg, letbase);
    if !Negative(i, b, sg) then Padded(digits, width, pad)
    else if width != 0 && pad.zero then "-" + Padded(digits, width - 1, pad)
    else Padded("-" + digits, width, pad)
  }

  lemma FormattedLength(i: int, b: nat, sg: bool, width: nat, pad: Pad, letbase: char)
    requires 2 <= b <= 36 && LetBase(letbase)
    ensures var n := |Natural(i, b, sg, letbase)|;
      |Formatted(i, b, sg, width, pad, letbase)| == if width > n then width else n
  {
    hide Digits;
  }

  // The text of every value in base 10 or 16, with sign and terminator, fits the buffer, and one
  // value needs all of it.
  lemma TextFits(i: int, b: nat, sg: bool, letbase: char)
    requires Int32(i) && 8 <= b <= 36 && LetBase(letbase)
    ensures 1 <= |Digits(i, b, sg, letbase)|
    ensures |Natural(i, b, sg, letbase)| + 1 <= PRINT_BUF_LEN
  {
    Powers();
    BufferSufficesIff(b, letbase);
    NumeralLengthIff(Magnitude(i, b, sg), b, letbase, 0);
    if Negative(i, b, sg) {
      NumeralLengthIff(-i, b, letbase, 10);
    }
  }

  lemma LongestText()
    ensures |Natural(-0x8000_0000, 10, true, 'a')| + 1 == PRINT_BUF_LEN
  {
    assert Power(10, 4) == 10000;
    assert Power(10, 9) == 1000000000;
    NumeralLengthIff(0x8000_0000, 10, 'a', 9);
    TextFits(-0x8000_0000, 10, true, 'a');
  }

  // Numbers are written without leading zeros, and 0 as one figure.
  lemma {:induction false} NumeralLead(u: nat, b: nat, letbase: char)
    requires 2 <= b <= 36 && LetBase(letbase) && u > 0
    ensures Numeral(u, b, letbase) != "" && Numeral(u, b, letbase)[0] != '0'
  {
    hide Numeral, DigitChar;
    LastDigit(u, b, letbase);
    Quotient(u, b);
    if u / b > 0 {
      NumeralLead(u / b, b, letbase);
    } else {
      DigitNotZero(u % b, letbase);
    }
  }

  lemma LastDigit(u: nat, b: nat, letbase: char)
    requires 2 <= b <= 36 && LetBase(letbase) && u > 0
    ensures u / b < u && Numeral(u, b, letbase) == Numeral(u / b, b, letbase) + [DigitChar(u % b, letbase)]
    ensures u / b == 0 ==> Numeral(u / b, b, letbase) == ""
  {
    Scale(u, 2, b);
    QuotientBelow(u, b, u);
  }

  lemma DigitNotZero(t: nat, letbase: char)
    requires 0 < t < 36 && LetBase(letbase)
    ensures DigitChar(t, letbase) != '0'
  {
  }

  lemma DigitsLead(i: int, b: nat, sg: bool, letbase: char)
    requires Int32(i) && 2 <= b <= 36 && LetBase(letbase)
    ensures var d := Digits(i, b, sg, letbase);
      if i == 0 then d == "0" else d != "" && d[0] != '0'
  {
    if i != 0 {
      NumeralLead(Magnitude(i, b, sg), b, letbase);
    }
  }

  // Beside blanks, signs and figures the output has only letters of the case asked for.
  lemma OutputLetters(i: int, b: nat, sg: bool, width: nat, pad: Pad, letbase: char)
    requires 2 <= b <= 36 && LetBase(letbase)
    ensures forall c | c in Formatted(i, b, sg, width, pad, letbase) ::
      c == ' ' || c == '-' || '0' <= c <= '9' ||
      (b > 10 && letbase as int <= c as int < letbase as int + (b - 10))
  {
    hide Numeral, LetBase;
    NumeralLetters(Magnitude(i, b, sg), b, letbase);
    var d := Digits(i, b, sg, letbase);
    forall c | c in Formatted(i, b, sg, width, pad, letbase)
      ensures c == ' ' || c == '-' || c == '0' || c in d
    {
    }
    forall c | c in d
      ensures '0' <= c <= '9' || (b > 10 && letbase as int <= c as int < letbase as int + (b - 10))
    {
    }
  }

  // ----- A reader

  function DigitValue(c: char): Option<nat> {
    if '0' <= c <= '9' then Some((c - '0') as nat)
    else if 'a' <= c <= 'z' then Some((c - 'a') as nat + 10)
    else if 'A' <= c <= 'Z' then Some((c - 'A') as nat + 10)
    else None
  }

  function ReadNat(s: string, b: nat): Option<nat> {
    if s == "" then Some(0)
    else
      var (v, d) := (ReadNat(s[..|s| - 1], b), DigitValue(s[|s| - 1]));
      if v.Some? && d.Some? && d.value < b then Some(v.value * b + d.value) else None
  }

  function SkipLeft(s: string): string {
    if s != "" && s[0] == ' ' then SkipLeft(s[1..]) else s
  }

  function SkipRight(s: string): string {
    if s != "" && s[|s| - 1] == ' ' then SkipRight(s[..|s| - 1]) else s
  }

  // Spaces around, an optional minus sign, at least one digit
  function Read(text: string, b: nat): Option<int> {
    var s := SkipRight(SkipLeft(text));
    if s == "" || s == "-" then None
    else
      var v := ReadNat(if s[0] == '-' then s[1..] else s, b);
      if v.None? then None else Some(Signed(s[0] == '-', v.value))
  }

  function Signed(neg: bool, v: nat): int {
    if neg then 0 - v else v
  }

  // Digits, or at least nothing the reader skips
  ghost predicate Plain(s: string) {
    forall k | 0 <= k < |s| :: s[k] != ' ' && s[k] != '-' && s[k] != '\0'
  }

  lemma DigitBack(t: nat, letbase: char)
    requires t < 36 && LetBase(letbase)
    ensures DigitValue(DigitChar(t, letbase)) == Some(t)
    ensures DigitChar(t, letbase) != ' ' && DigitChar(t, letbase) != '-' && DigitChar(t, letbase) != '\0'
  {
  }

  lemma ReadSnoc(s: string, c: char, b: nat)
    ensures var (v, d) := (ReadNat(s, b), DigitValue(c));
      ReadNat(s + [c], b) == if v.Some? && d.Some? && d.value < b then Some(v.value * b + d.value) else None
  {
    assert (s + [c])[..|s|] == s;
  }

  lemma {:induction false} NumeralBack(u: nat, b: nat, letbase: char)
    requires 2 <= b <= 36 && LetBase(letbase)
    ensures ReadNat(Numeral(u, b, letbase), b) == Some(u) && Plain(Numeral(u, b, letbase))
  {
    hide ReadNat, DigitChar, DigitValue;
    if u == 0 {
      ReadEmpty(b);
    } else {
      NumeralBack(u / b, b, letbase);
      DigitBack(u % b, letbase);
      ReadSnoc(Numeral(u / b, b, letbase), DigitChar(u % b, letbase), b);
      Quotient(u, b);
    }
  }

  lemma Quotient(u: nat, b: nat)
    requires b > 0
    ensures u / b * b + u % b == u
  {
  }

  lemma ReadEmpty(b: nat)
    ensures ReadNat("", b) == Some(0)
  {
  }

  lemma DigitsBack(i: int, b: nat, sg: bool, letbase: char)
    requires Int32(i) && 2 <= b <= 36 && LetBase(letbase)
    ensures var d := Digits(i, b, sg, letbase);
      d != "" && ReadNat(d, b) == Some(Magnitude(i, b, sg)) && Plain(d)
  {
    NumeralBack(Magnitude(i, b, sg), b, letbase);
    if i == 0 {
      assert ReadNat("", b) == Some(0);
    }
  }

  lemma {:induction false} LeadingZeros(n: nat, s: string, b: nat)
    requires b > 0
    ensures ReadNat(Fill('0', n) + s, b) == ReadNat(s, b)
    decreases |s|, n
  {
    var t := Fill('0', n) + s;
    if s != "" {
      assert t[..|t| - 1] == Fill('0', n) + s[..|s| - 1];
      LeadingZeros(n, s[..|s| - 1], b);
    } else if n > 0 {
      assert t[..|t| - 1] == Fill('0', n - 1) + s;
      LeadingZeros(n - 1, s, b);
    }
  }

  lemma {:induction false} TrailingZeros(s: string, n: nat, b: nat)
    requires b > 0 && ReadNat(s, b).Some?
    ensures ReadNat(s + Fill('0', n), b) == Some(ReadNat(s, b).value * Power(b, n))
    decreases n
  {
    hide ReadNat;
    if n == 0 {
      assert s + Fill('0', 0) == s;
    } else {
      TrailingZeros(s, n - 1, b);
      assert s + Fill('0', n) == (s + Fill('0', n - 1)) + ['0'];
      ReadSnoc(s + Fill('0', n - 1), '0', b);
      Reassociate(ReadNat(s, b).value, Power(b, n - 1), b);
    }
  }

  lemma Reassociate(x: nat, y: nat, z: nat)
    ensures x * y * z == x * (z * y)
  {
  }

  lemma {:induction false} SkipFillLeft(n: nat, s: string)
    requires s == "" || s[0] != ' '
    ensures SkipLeft(Fill(' ', n) + s) == s
    decreases n
  {
    if n > 0 {
      assert (Fill(' ', n) + s)[1..] == Fill(' ', n - 1) + s;
      SkipFillLeft(n - 1, s);
    } else {
      assert Fill(' ', 0) + s == s;
    }
  }

  lemma {:induction false} SkipFillRight(s: string, n: nat)
    requires s == "" || s[|s| - 1] != ' '
    ensures SkipRight(s + Fill(' ', n)) == s
    decreases n
  {
    var t := s + Fill(' ', n);
    if n > 0 {
      assert t[..|t| - 1] == s + Fill(' ', n - 1);
      SkipFillRight(s, n - 1);
    } else {
      assert t == s;
    }
  }

  // Spaces around a text with no space at either end do not matter.
  lemma ReadTrims(l: nat, s: string, r: nat, b: nat)
    requires s != "" && s[0] != ' ' && s[|s| - 1] != ' '
    ensures Read(Fill(' ', l) + s + Fill(' ', r), b) == Read(s, b)
  {
    assert Fill(' ', l) + s + Fill(' ', r) == Fill(' ', l) + (s + Fill(' ', r));
    SkipFillLeft(l, s + Fill(' ', r));
    SkipFillRight(s, r);
    SkipFillLeft(0, s);
    SkipFillRight(s, 0);
    assert Fill(' ', 0) + s == s && s + Fill(' ', 0) == s;
  }

  lemma ReadSigned(neg: bool, d: string, b: nat)
    requires d != "" && Plain(d)
    ensures var v := ReadNat(d, b);
      Read((if neg then "-" else "") + d, b)
        == if v.None? then None else Some(Signed(neg, v.value))
  {
    var s := (if neg then "-" else "") + d;
    SkipFillLeft(0, s);
    SkipFillRight(s, 0);
    assert Fill(' ', 0) + s == s && s + Fill(' ', 0) == s;
    if neg {
      assert s[1..] == d;
    } else {
      assert s == d;
    }
  }

  // The value the text is to stand for: i itself when it is printed signed, else i as an unsigned
  function Meaning(i: int, b: nat, sg: bool): int {
    if sg && b == 10 then i else i % 0x1_0000_0000
  }

  // The shape of the text: zero fill before the digits or after them, or space fill around
  lemma FormattedShape(i: int, b: nat, sg: bool, width: nat, pad: Pad, letbase: char)
    requires 2 <= b <= 36 && LetBase(letbase)
    ensures var (natural, digits) := (Natural(i, b, sg, letbase), Digits(i, b, sg, letbase));
      var (n, sign) := (Missing(natural, width), if Negative(i, b, sg) then "-" else "");
      Formatted(i, b, sg, width, pad, letbase)
        == if pad.zero then sign + (if pad.right then digits + Fill('0', n) else Fill('0', n) + digits)
           else if pad.right then Fill(' ', 0) + natural + Fill(' ', n)
           else Fill(' ', n) + natural + Fill(' ', 0)
  {
    hide Digits;
    var d := Digits(i, b, sg, letbase);
    assert "" + d == d;
    if Negative(i, b, sg) {
      assert |"-" + d| == |d| + 1;
    }
  }

  // Reading back what was printed gives the value, except that zeros filled in on the right of a
  // number other than 0 change it.
  lemma RoundTripIff(i: int, b: nat, sg: bool, width: nat, pad: Pad, letbase: char)
    requires Int32(i) && (b == 10 || b == 16) && LetBase(letbase)
    ensures Read(Formatted(i, b, sg, width, pad, letbase), b) == Some(if sg && b == 10 then i else i % 0x1_0000_0000)
       <==> !(pad.right && pad.zero && i != 0 && width > |Natural(i, b, sg, letbase)|)
  {
    hide Digits, Formatted, ReadNat, Read, Natural, Magnitude, Fill;
    var neg, d, natural := Negative(i, b, sg), Digits(i, b, sg, letbase), Natural(i, b, sg, letbase);
    var n := Missing(natural, width);
    FormattedShape(i, b, sg, width, pad, letbase);
    DigitsBack(i, b, sg, letbase);
    NaturalValue(i, b, sg, letbase);
    if !pad.zero {
      ReadTrims(if pad.right then 0 else n, natural, if pad.right then n else 0, b);
    } else if !pad.right {
      LeadingZeros(n, d, b);
      ZerosPlain("", n, d);
      ReadSigned(neg, Fill('0', n) + d, b);
    } else {
      TrailingZeros(d, n, b);
      ZerosPlain(d, n, "");
      ReadSigned(neg, d + Fill('0', n), b);
      Multiplied(Magnitude(i, b, sg), b, n);
    }
  }

  lemma ZerosPlain(s: string, n: nat, t: string)
    requires Plain(s) && Plain(t)
    ensures Plain(s + Fill('0', n)) && Plain(Fill('0', n) + t)
  {
  }

  // The text without padding reads back as its meaning.
  lemma NaturalValue(i: int, b: nat, sg: bool, letbase: char)
    requires Int32(i) && (b == 10 || b == 16) && LetBase(letbase)
    ensures var s := Natural(i, b, sg, letbase);
      s != "" && s[0] != ' ' && s[|s| - 1] != ' ' && Read(s, b) == Some(Meaning(i, b, sg))
    ensures Meaning(i, b, sg) == Signed(Negative(i, b, sg), Magnitude(i, b, sg))
    ensures Magnitude(i, b, sg) == 0 <==> i == 0
  {
    hide Digits, ReadNat, Read;
    DigitsBack(i, b, sg, letbase);
    ReadSigned(Negative(i, b, sg), Digits(i, b, sg, letbase), b);
  }

  lemma {:induction false} Multiplied(u: nat, b: nat, n: nat)
    requires b >= 2
    ensures u * Power(b, n) == u <==> u == 0 || n == 0
    decreases n
  {
    if n > 0 {
      PowerPositive(b, n - 1);
      var p := Power(b, n - 1);
      assert Power(b, n) >= 2 by { Scale(b, 1, p); }
      if u > 0 {
        Scale(u, 2, Power(b, n));
      }
    }
  }
}
