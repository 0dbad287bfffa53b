/** `prints` and `printi` of `printf.c`.  The text is what goes through printchar. */
module Printf {
  import opened PrintTheory

  // str holds a string of n characters and its terminator.
  ghost predicate CString(str: seq<char>, n: nat) {
    n < |str| && str[n] == '\0' && forall k | 0 <= k < n :: str[k] != '\0'
  }

  method StringLength(str: seq<char>, ghost n: nat) returns (len: nat)
    requires CString(str, n)
    ensures len == n
  {
    len := 0;
    while str[len] != '\0'
      invariant len <= n
      decreases n - len
    {
      len := len + 1;
    }
  }

  // The loops for (; width > 0; --width)
  method Pads(text0: string, padchar: char, width0: nat) returns (text: string, count: nat)
    ensures text == text0 + Fill(padchar, width0) && count == width0
  {
    text, count := text0, 0;
    var width: nat := width0;
    while width > 0
      invariant width <= width0 && text == text0 + Fill(padchar, width0 - width) && count == width0 - width
    {
      text := text + [padchar];
      count := count + 1;
      width := width - 1;
    }
  }

  method Copies(text0: string, str: seq<char>, ghost n: nat) returns (text: string, count: nat)
    requires CString(str, n)
    ensures text == text0 + str[..n] && count == n
  {
    text, count := text0, 0;
    while str[count] != '\0'
      invariant count <= n && text == text0 + str[..count]
      decreases n - count
    {
      text := text + [str[count]];
      count := count + 1;
    }
  }

  method Prints(text0: string, str: seq<char>, ghost n: nat, width0: nat, pad: Pad) returns (text: string, pc: nat)
    requires CString(str, n)
    ensures text == text0 + Padded(str[..n], width0, pad) && pc == |text| - |text0|
  {
    hide CString, Padded, Fill;
    text := text0;
    pc := 0;
    var padchar := ' ';
    var width := width0;
    Terminated(str, n);
    if width > 0 {
      var len := StringLength(str, n);
      width := if len >= width then 0 else width - len;
      if pad.zero {
        padchar := '0';
      }
    }
    assert width == Missing(str[..n], width0);
    assert Fill(padchar, width) == Fill(if pad.zero then '0' else ' ', width);
    if !pad.right {
      text, pc := Pads(text, padchar, width);
      width := 0;
    }
    var count;
    text, count := Copies(text, str, n);
    pc := pc + count;
    text, count := Pads(text, padchar, width);
    pc := pc + count;
    Assembled(text0, str[..n], width0, pad);
  }

  lemma Assembled(text0: string, s: string, width: nat, pad: Pad)
    ensures var fill := Fill(if pad.zero then '0' else ' ', Missing(s, width));
      text0 + Padded(s, width, pad)
        == if pad.right then text0 + s + fill else text0 + fill + s + Fill(if pad.zero then '0' else ' ', 0)
  {
  }

  lemma Terminated(str: seq<char>, n: nat)
    requires CString(str, n)
    ensures n < |str|
  {
  }

  // The digit loop writes the buffer backwards from its terminator.
  method Convert(print_buf: array<char>, u0: nat, b: nat, letbase: char) returns (s: nat)
    requires print_buf.Length == PRINT_BUF_LEN && 2 <= b <= 36 && LetBase(letbase)
    requires |Numeral(u0, b, letbase)| < PRINT_BUF_LEN
    modifies print_buf
    ensures s + |Numeral(u0, b, letbase)| == PRINT_BUF_LEN - 1
    ensures print_buf[s..] == Numeral(u0, b, letbase) + ['\0']
  {
    hide Numeral, DigitChar, LetBase;
    s := PRINT_BUF_LEN - 1;
    print_buf[s] := '\0';
    var u: nat := u0;
    while u != 0
      invariant s < PRINT_BUF_LEN
      invariant Numeral(u, b, letbase) + print_buf[s..] == Numeral(u0, b, letbase) + ['\0']
      decreases u
    {
      LastDigit(u, b, letbase);
      assert |Numeral(u, b, letbase) + print_buf[s..]| == |Numeral(u0, b, letbase)| + 1;
      OneMoved(Numeral(u / b, b, letbase), DigitChar(u % b, letbase), print_buf[s..]);
      s := PutChar(print_buf, s, DigitChar(u % b, letbase));
      u := u / b;
    }
    NoDigits(b, letbase);
  }

  // *--s = c
  method PutChar(print_buf: array<char>, s0: nat, c: char) returns (s: nat)
    requires 0 < s0 <= print_buf.Length
    modifies print_buf
    ensures s == s0 - 1 && print_buf[s..] == [c] + old(print_buf[s0..])
  {
    s := s0 - 1;
    print_buf[s] := c;
  }

  lemma OneMoved(d: string, c: char, tail: seq<char>)
    ensures (d + [c]) + tail == d + ([c] + tail)
  {
  }

  method Printi(i: int, b: nat, sg: bool, width0: nat, pad: Pad, letbase: char) returns (text: string, pc: nat)
    requires Int32(i) && (b == 10 || b == 16) && LetBase(letbase)
    ensures text == Formatted(i, b, sg, width0, pad, letbase) && pc == |text|
  {
    hide Numeral, CString, Padded;
    var print_buf := new char[PRINT_BUF_LEN](_ => '\0');
    if i == 0 {
      print_buf[0] := '0';
      print_buf[1] := '\0';
      ZeroString(print_buf[..]);
      text, pc := Prints("", print_buf[..], 1, width0, pad);
      return;
    }
    var neg, u := false, i % 0x1_0000_0000;
    if sg && b == 10 && i < 0 {
      neg := true;
      u := -i;
    }
    TextFits(i, b, sg, letbase);
    ghost var digits := Numeral(u, b, letbase);
    var s := Convert(print_buf, u, b, letbase);
    NumeralString(u, b, letbase);
    var width := width0;
    text, pc := "", 0;
    if neg {
      if width != 0 && pad.zero {
        text := text + ['-'];
        pc := pc + 1;
        width := width - 1;
      } else {
        s := PutChar(print_buf, s, '-');
        SignString(digits);
        digits := ['-'] + digits;
      }
    }
    assert print_buf[s..][..|digits|] == digits;
    var count;
    text, count := Prints(text, print_buf[s..], |digits|, width, pad);
    pc := pc + count;
  }

  lemma ZeroString(buf: seq<char>)
    requires |buf| >= 2 && buf[0] == '0' && buf[1] == '\0'
    ensures CString(buf, 1) && buf[..1] == "0"
  {
  }

  lemma NumeralString(u: nat, b: nat, letbase: char)
    requires 2 <= b <= 36 && LetBase(letbase)
    ensures var d := Numeral(u, b, letbase); CString(d + ['\0'], |d|)
  {
    NumeralBack(u, b, letbase);
  }

  lemma SignString(d: string)
    requires CString(d + ['\0'], |d|)
    ensures CString(['-'] + (d + ['\0']), |d| + 1)
  {
    var t := ['-'] + (d + ['\0']);
    forall k | 0 <= k <= |d|
      ensures t[k] != '\0'
    {
      assert k > 0 ==> t[k] == (d + ['\0'])[k - 1];
    }
  }
}
