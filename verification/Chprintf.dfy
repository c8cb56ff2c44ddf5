/** Printing integers: the digit generator, which works in place in a small buffer, and the padding. */
module Chprintf {

  const MAX_FILLER := 11

  type Radix = r: nat | r == 8 || r == 10 || r == 16 witness 10

  // ---- Numerals ----

  function DigitChar(d: nat): char
    requires d < 16
  {
    var i := d + '0' as nat;
    (if i > '9' as nat then i + ('A' as nat - '0' as nat - 10) else i) as char
  }

  predicate IsDigit(c: char, radix: Radix) {
    ('0' <= c <= '9' && c as nat - '0' as nat < radix) || ('A' <= c <= 'F' && radix == 16)
  }

  function DigitValue(c: char): nat {
    if '0' <= c <= '9' then c as nat - '0' as nat
    else if 'A' <= c <= 'F' then c as nat - 'A' as nat + 10
    else 0
  }

  /** The number that a string of digits stands for. */
  function Eval(s: seq<char>, radix: Radix): nat {
    if s == [] then 0 else Eval(s[..|s| - 1], radix) * radix + DigitValue(s[|s| - 1])
  }

  /** The numeral of a number. */
  function Digits(n: nat, radix: Radix): (s: seq<char>)
    ensures s != []
  {
    if n < radix then [DigitChar(n)] else Digits(n / radix, radix) + [DigitChar(n % radix)]
  }

  /** Digits only, and no superfluous zero in front. */
  ghost predicate Canonical(s: seq<char>, radix: Radix) {
    && s != []
    && (forall i :: 0 <= i < |s| ==> IsDigit(s[i], radix))
    && (s[0] == '0' ==> |s| == 1)
  }

  lemma DigitRead(d: nat, radix: Radix)
    requires d < radix
    ensures IsDigit(DigitChar(d), radix) && DigitValue(DigitChar(d)) == d
    ensures DigitChar(d) == '0' <==> d == 0
  {}

  /** Sixteen digits, capital letters after the nine. */
  lemma DigitWhich(d: nat)
    requires d < 16
    ensures DigitChar(d) == "0123456789ABCDEF"[d]
  {}

  lemma DigitWritten(c: char, radix: Radix)
    requires IsDigit(c, radix)
    ensures DigitValue(c) < radix && DigitChar(DigitValue(c)) == c
  {}

  /** The numeral reads back as the number and is canonical. */
  lemma {:induction false} DigitsRead(n: nat, radix: Radix)
    ensures Eval(Digits(n, radix), radix) == n
    ensures Canonical(Digits(n, radix), radix)
    ensures Digits(n, radix)[0] == '0' ==> n == 0
  {
    hide DigitChar, DigitValue, IsDigit;
    var s := Digits(n, radix);
    if n < radix {
      DigitRead(n, radix);
      assert s[..0] == [];
    } else {
      DigitsRead(n / radix, radix);
      DigitRead(n % radix, radix);
      assert s[..|s| - 1] == Digits(n / radix, radix);
    }
  }

  /** The number divided by the radix k times over. */
  function Quotients(n: nat, radix: Radix, k: nat): nat {
    if k == 0 then n else Quotients(n / radix, radix, k - 1)
  }

  /** Place by place: the digit `k` places from the end is the remainder after `k` divisions. */
  lemma {:induction false} DigitPlaces(n: nat, radix: Radix, k: nat)
    requires k < |Digits(n, radix)|
    ensures Digits(n, radix)[|Digits(n, radix)| - 1 - k] == "0123456789ABCDEF"[Quotients(n, radix, k) % radix]
    decreases k
  {
    hide DigitChar;
    if k == 0 {
      DigitWhich(n % radix);
      Quotient(n, radix);
    } else {
      DigitPlaces(n / radix, radix, k - 1);
    }
  }

  /** Every canonical string of digits is the numeral of what it stands for. */
  lemma {:induction false} CanonicalIsNumeral(s: seq<char>, radix: Radix)
    requires Canonical(s, radix)
    ensures Digits(Eval(s, radix), radix) == s
    ensures Eval(s, radix) == 0 ==> s == ['0']
    decreases |s|
  {
    hide DigitChar, DigitValue, IsDigit;
    var front, d := s[..|s| - 1], DigitValue(s[|s| - 1]);
    DigitWritten(s[|s| - 1], radix);
    DigitRead(d, radix);
    if front == [] {
      assert Eval(s, radix) == d;
    } else {
      CanonicalIsNumeral(front, radix);
      DivModOfStep(Eval(front, radix), d, radix);
    }
  }

  lemma DivModOfStep(m: nat, d: nat, radix: Radix)
    requires d < radix
    ensures (m * radix + d) / radix == m && (m * radix + d) % radix == d
    ensures m > 0 ==> m * radix + d >= radix
  {}

  /** A numeral has at most k digits if the number is below the k-th power of eight. */
  lemma {:induction false} DigitsShort(n: nat, radix: Radix, k: nat, bound: nat)
    requires n < bound && bound <= PowerOfEight(k) && k > 0
    ensures |Digits(n, radix)| <= k
    decreases k
  {
    assert PowerOfEight(1) == 8 * PowerOfEight(0);
    if n >= radix && k > 1 {
      QuotientBound(n, radix, PowerOfEight(k - 1));
      DigitsShort(n / radix, radix, k - 1, PowerOfEight(k - 1));
    }
  }

  function PowerOfEight(k: nat): nat { if k == 0 then 1 else 8 * PowerOfEight(k - 1) }

  lemma QuotientBound(n: nat, radix: Radix, p: nat)
    requires n < 8 * p
    ensures n / radix < p
  {}

  lemma WordFits(n: nat, radix: Radix)
    requires n < 0x1_0000_0000
    ensures |Digits(n, radix)| <= 11
  {
    assert PowerOfEight(2) == 64;
    assert PowerOfEight(4) == 64 * PowerOfEight(2);
    assert PowerOfEight(6) == 64 * PowerOfEight(4);
    assert PowerOfEight(8) == 64 * PowerOfEight(6);
    assert PowerOfEight(10) == 64 * PowerOfEight(8);
    assert PowerOfEight(11) == 8 * PowerOfEight(10);
    DigitsShort(n, radix, 11, PowerOfEight(11));
  }

  // ---- The digit generator ----

  /** Writes the numeral of an unsigned 32-bit number at `p`: first backwards from the end of a window
      of eleven cells, then moved to its front, over itself. Returns where it ends. */
  method Ltoa(buf: array<char>, p: nat, num: nat, radix: Radix) returns (end: nat)
    requires p + MAX_FILLER <= buf.Length && num < 0x1_0000_0000
    modifies buf
    ensures end == p + |Digits(num, radix)| <= p + 11
    ensures buf[p..end] == Digits(num, radix)
    ensures buf[..p] == old(buf[..p]) && buf[p + 11..] == old(buf[p + 11..])
  {
    hide DigitChar, Digits;
    WordFits(num, radix);
    ghost var numeral := Digits(num, radix);
    var q := GenerateDigits(buf, p, num, radix);
    end := p;
    var i := p + MAX_FILLER - q;
    while i != 0
      invariant i >= 0 && p <= end <= q && end + i == p + |numeral| && q + i == p + MAX_FILLER
      invariant buf[p..end] == numeral[..end - p]
      invariant buf[q..p + MAX_FILLER] == numeral[end - p..]
      invariant buf[..p] == old(buf[..p]) && buf[p + MAX_FILLER..] == old(buf[p + MAX_FILLER..])
      decreases i
    {
      assert buf[q] == numeral[end - p];
      buf[end] := buf[q];
      end, q := end + 1, q + 1;
      i := i - 1;
    }
  }

  lemma Quotient(n: nat, radix: Radix)
    ensures n / radix >= 0 && (n < radix <==> n / radix == 0) && (n >= radix ==> n / radix < n)
    ensures n < radix ==> n % radix == n
  {}

  /** The first loop: least significant digit first, from the end of the window. */
  method GenerateDigits(buf: array<char>, p: nat, num: nat, radix: Radix) returns (q: nat)
    requires p + MAX_FILLER <= buf.Length && |Digits(num, radix)| <= MAX_FILLER
    modifies buf
    ensures q == p + MAX_FILLER - |Digits(num, radix)|
    ensures buf[q..p + MAX_FILLER] == Digits(num, radix)
    ensures buf[..p] == old(buf[..p]) && buf[p + MAX_FILLER..] == old(buf[p + MAX_FILLER..])
  {
    hide DigitChar;
    q := p + MAX_FILLER;
    var n: nat := num;
    while true
      invariant p + |Digits(n, radix)| <= q <= p + MAX_FILLER
      invariant Digits(num, radix) == Digits(n, radix) + buf[q..p + MAX_FILLER]
      invariant buf[..p] == old(buf[..p]) && buf[p + MAX_FILLER..] == old(buf[p + MAX_FILLER..])
      decreases n
    {
      ghost var done := buf[q..p + MAX_FILLER];
      q := q - 1;
      buf[q] := DigitChar(n % radix);
      assert buf[q..p + MAX_FILLER] == [DigitChar(n % radix)] + done;
      Quotient(n, radix);
      n := n / radix;
      if n == 0 {
        break;
      }
    }
  }

  // ---- Padding ----

  function Fill(c: char, n: nat): (s: seq<char>)
    ensures |s| == n
  {
    seq(n, _ => c)
  }

  function Missing(text: seq<char>, width: nat): nat {
    if width > |text| then width - |text| else 0
  }

  /** The text, brought to the width; a sign stays in front of zeros. */
  function Padded(text: seq<char>, width: nat, leftAlign: bool, filler: char): seq<char>
    requires text != []
  {
    var fill := Fill(filler, Missing(text, width));
    if leftAlign then text + fill
    else if text[0] == '-' && filler == '0' then [text[0]] + fill + text[1..]
    else fill + text
  }

  /** Exactly as many characters as asked for, or as the text has, whichever is more. */
  lemma PaddedLength(text: seq<char>, width: nat, leftAlign: bool, filler: char)
    requires text != []
    ensures |Padded(text, width, leftAlign, filler)| == if width > |text| then width else |text|
  {}

  /** Where the text stands in what is printed: in front of the fill, behind it, or, for a negative
      number filled with zeros, with its sign in front of the fill and the rest behind it. */
  ghost predicate LaidOut(out: seq<char>, text: seq<char>, width: nat, leftAlign: bool, filler: char)
    requires text != []
  {
    var n, t := |out|, |text|;
    && n == (if width > t then width else t)
    && (leftAlign ==> out[..t] == text && forall i :: t <= i < n ==> out[i] == filler)
    && (!leftAlign && !(text[0] == '-' && filler == '0') ==>
          out[n - t..] == text && forall i :: 0 <= i < n - t ==> out[i] == filler)
    && (!leftAlign && text[0] == '-' && filler == '0' ==>
          && out[0] == '-' && out[n - t + 1..] == text[1..]
          && forall i :: 1 <= i <= n - t ==> out[i] == filler)
  }

  lemma PaddedLayout(text: seq<char>, width: nat, leftAlign: bool, filler: char)
    requires text != []
    ensures LaidOut(Padded(text, width, leftAlign, filler), text, width, leftAlign, filler)
  {
    var k, out := Missing(text, width), Padded(text, width, leftAlign, filler);
    if !leftAlign && text[0] == '-' && filler == '0' {
      assert out[k + 1..] == text[1..];
    } else if !leftAlign {
      assert out[k..] == text;
    } else {
      assert out[..|text|] == text;
    }
  }

  /** The layout leaves nothing open. */
  lemma LayoutDetermines(out: seq<char>, text: seq<char>, width: nat, leftAlign: bool, filler: char)
    requires text != [] && LaidOut(out, text, width, leftAlign, filler)
    ensures out == Padded(text, width, leftAlign, filler)
  {
    var padded, n, t := Padded(text, width, leftAlign, filler), |out|, |text|;
    PaddedLayout(text, width, leftAlign, filler);
    if !leftAlign {
      if text[0] == '-' && filler == '0' {
        assert out == out[..1] + out[1..n - t + 1] + out[n - t + 1..];
        assert padded == padded[..1] + padded[1..n - t + 1] + padded[n - t + 1..];
        assert out[1..n - t + 1] == padded[1..n - t + 1];
      } else {
        assert out == out[..n - t] + out[n - t..] && padded == padded[..n - t] + padded[n - t..];
        assert out[..n - t] == padded[..n - t];
      }
    } else {
      assert out == out[..t] + out[t..] && padded == padded[..t] + padded[t..];
    }
  }

  method PutFill(out0: seq<char>, filler: char, n: nat) returns (out: seq<char>)
    ensures out == out0 + Fill(filler, n)
  {
    out := out0;
    var left := n;
    while left != 0
      invariant 0 <= left <= n && out == out0 + Fill(filler, n - left)
      decreases left
    {
      out := out + [filler];
      left := left - 1;
    }
  }

  method PutText(out0: seq<char>, text: seq<char>, s0: nat) returns (out: seq<char>)
    requires s0 <= |text|
    ensures out == out0 + text[s0..]
  {
    out := out0;
    var s, i := s0, |text| - s0;
    while i > 0
      invariant s0 <= s && i >= 0 && s + i == |text|
      invariant out == out0 + text[s0..s]
    {
      out := out + [text[s]];
      s, i := s + 1, i - 1;
    }
  }

  /** Sends the text to the channel, padded: fill in front if the width is negative, behind if it is
      positive. */
  method Emit(text: seq<char>, width0: nat, leftAlign: bool, filler: char) returns (out: seq<char>)
    requires text != []
    ensures out == Padded(text, width0, leftAlign, filler)
    ensures LaidOut(out, text, width0, leftAlign, filler)
  {
    hide Fill, LaidOut;
    out := [];
    var s := 0;
    var width: int := width0 - |text|;
    if width < 0 { width := 0; }
    if !leftAlign { width := -width; }
    if width < 0 {
      if text[s] == '-' && filler == '0' {
        out := out + [text[s]];
        s := s + 1;
      }
      out := PutFill(out, filler, -width);
      width := 0;
    } else if !leftAlign {
      NoFill(filler);
    }
    out := PutText(out, text, s);
    out := PutFill(out, filler, width);
    NoFill(filler);
    assert out == Padded(text, width0, leftAlign, filler);
    PaddedLayout(text, width0, leftAlign, filler);
  }

  lemma NoFill(c: char)
    ensures Fill(c, 0) == []
  {}

  // ---- Signed and unsigned conversions ----

  datatype Conversion = Signed | Unsigned(radix: Radix)

  /** The text of a 32-bit argument: signed conversions print sign and magnitude, unsigned ones the
      argument modulo 2^32. */
  function Numeral(l: int, conv: Conversion): (t: seq<char>)
    requires -0x8000_0000 <= l < 0x8000_0000
    ensures t != []
  {
    match conv
    case Signed => if l < 0 then ['-'] + Digits(-l, 10) else Digits(l, 10)
    case Unsigned(radix) => Digits(if l < 0 then l + 0x1_0000_0000 else l, radix)
  }

  /** Prints one integer argument through the conversion buffer of twelve cells. The negation of the
      least argument wraps around to itself, whose unsigned reading is its magnitude. */
  method PrintInteger(l: int, conv: Conversion, width: nat, leftAlign: bool, zeroFill: bool) returns (out: seq<char>)
    requires -0x8000_0000 <= l < 0x8000_0000
    ensures out == Padded(Numeral(l, conv), width, leftAlign, if zeroFill then '0' else ' ')
    ensures LaidOut(out, Numeral(l, conv), width, leftAlign, if zeroFill then '0' else ' ')
  {
    hide Digits, Padded, LaidOut;
    var tmpbuf := new char[MAX_FILLER + 1];
    var p := 0;
    match conv {
      case Signed =>
        var magnitude := l;
        if l < 0 {
          tmpbuf[p] := '-';
          p := p + 1;
          magnitude := -l;
        }
        var start := p;
        p := Ltoa(tmpbuf, p, magnitude, 10);
        assert tmpbuf[..p] == tmpbuf[..start] + tmpbuf[start..p];
        if l < 0 {
          assert tmpbuf[..start] == ['-'];
        }
      case Unsigned(radix) =>
        p := Ltoa(tmpbuf, p, if l < 0 then l + 0x1_0000_0000 else l, radix);
        assert tmpbuf[..p] == tmpbuf[0..p];
    }
    out := Emit(tmpbuf[..p], width, leftAlign, if zeroFill then '0' else ' ');
  }

  // ---- Reading the output back ----

  /** The number that a string with an optional sign stands for. */
  function EvalSigned(s: seq<char>, radix: Radix): int {
    if s != [] && s[0] == '-' then 0 - Eval(s[1..], radix) else Eval(s, radix)
  }

  function Power(radix: Radix, k: nat): nat { if k == 0 then 1 else Power(radix, k - 1) * radix }

  lemma {:induction false} ZerosInFront(k: nat, s: seq<char>, radix: Radix)
    ensures Eval(Fill('0', k) + s, radix) == Eval(s, radix)
    decreases |s|, k
  {
    if s != [] {
      assert (Fill('0', k) + s)[..k + |s| - 1] == Fill('0', k) + s[..|s| - 1];
      ZerosInFront(k, s[..|s| - 1], radix);
    } else if k > 0 {
      assert (Fill('0', k) + s)[..k - 1] == Fill('0', k - 1) + s;
      ZerosInFront(k - 1, s, radix);
    }
  }

  lemma EvalSnoc(s: seq<char>, c: char, radix: Radix)
    ensures Eval(s + [c], radix) == Eval(s, radix) * radix + DigitValue(c)
  {
    assert (s + [c])[..|s + [c]| - 1] == s;
  }

  lemma TimesAssociative(a: nat, b: nat, c: nat)
    ensures a * b * c == a * (b * c)
  {}

  lemma {:induction false} ZerosBehind(k: nat, s: seq<char>, radix: Radix)
    ensures Eval(s + Fill('0', k), radix) == Eval(s, radix) * Power(radix, k)
    decreases k
  {
    hide Eval;
    if k == 0 {
      assert s + Fill('0', k) == s;
    } else {
      assert s + Fill('0', k) == (s + Fill('0', k - 1)) + ['0'];
      EvalSnoc(s + Fill('0', k - 1), '0', radix);
      ZerosBehind(k - 1, s, radix);
      TimesAssociative(Eval(s, radix), Power(radix, k - 1), radix);
    }
  }

  lemma {:induction false} PowerGrows(radix: Radix, k: nat)
    ensures Power(radix, k) >= 1 && (k > 0 ==> Power(radix, k) > 1)
  {
    if k > 0 {
      PowerGrows(radix, k - 1);
    }
  }

  /** The number that the argument stands for under a conversion: unsigned ones read it modulo 2^32. */
  function Meaning(l: int, conv: Conversion): int {
    if conv.Signed? then l else l % 0x1_0000_0000
  }

  function RadixOf(conv: Conversion): Radix { if conv.Signed? then 10 else conv.radix }

  lemma NoSign(n: nat, radix: Radix)
    ensures Digits(n, radix)[0] != '-'
  {
    DigitsRead(n, radix);
  }

  lemma ZeroFilledMeaning(l: int, conv: Conversion, width: nat, leftAlign: bool)
    requires -0x8000_0000 <= l < 0x8000_0000
    ensures var t := Numeral(l, conv);
      EvalSigned(Padded(t, width, leftAlign, '0'), RadixOf(conv)) == Meaning(l, conv)
      <==> (!leftAlign || width <= |t| || l == 0)
  {
    hide Digits, Fill, Power, Eval, Meaning;
    var t, radix := Numeral(l, conv), RadixOf(conv);
    var k := Missing(t, width);
    var magnitude := Magnitude(l, conv);
    var digits := Digits(magnitude, radix);
    NumeralParts(l, conv);
    DigitsRead(magnitude, radix);
    NoSign(magnitude, radix);
    FillFirst(k);
    if leftAlign {
      ZerosBehind(k, digits, radix);
      PowerGrows(radix, k);
      PowerZero(radix);
      ScaledOnlyIfOne(magnitude, Power(radix, k));
      assert (['-'] + digits + Fill('0', k))[1..] == digits + Fill('0', k);
    } else {
      ZerosInFront(k, digits, radix);
      assert (['-'] + Fill('0', k) + digits)[1..] == Fill('0', k) + digits;
      assert (['-'] + digits)[1..] == digits;
    }
  }

  /** What is printed with zero fill reads back as the argument, sign and all, unless the fill was put
      behind it: then it reads back if and only if there was nothing to fill or the number is zero. */
  lemma ZeroFilledReadsBackIff(l: int, conv: Conversion, width: nat, leftAlign: bool, out: seq<char>)
    requires -0x8000_0000 <= l < 0x8000_0000
    requires LaidOut(out, Numeral(l, conv), width, leftAlign, '0')
    ensures (EvalSigned(out, if conv.Signed? then 10 else conv.radix) == if conv.Signed? then l else l % 0x1_0000_0000)
      <==> (!leftAlign || width <= |Numeral(l, conv)| || l == 0)
  {
    hide Numeral, EvalSigned, Padded, LaidOut, Meaning;
    LayoutDetermines(out, Numeral(l, conv), width, leftAlign, '0');
    ZeroFilledMeaning(l, conv, width, leftAlign);
    MeaningSign(l, conv);
  }

  function Magnitude(l: int, conv: Conversion): nat {
    if Meaning(l, conv) < 0 then -Meaning(l, conv) else Meaning(l, conv)
  }

  lemma NumeralParts(l: int, conv: Conversion)
    requires -0x8000_0000 <= l < 0x8000_0000
    ensures var digits := Digits(Magnitude(l, conv), RadixOf(conv));
      Numeral(l, conv) == if Meaning(l, conv) < 0 then ['-'] + digits else digits
    ensures Meaning(l, conv) == 0 <==> l == 0
  {
    hide Digits;
  }

  /** The text of an argument in plain terms: a minus sign exactly in front of negative numbers of a
      signed conversion, and the digits of the magnitude, decimal for signed conversions. */
  lemma NumeralRead(l: int, conv: Conversion)
    requires -0x8000_0000 <= l < 0x8000_0000
    ensures var t, radix := Numeral(l, conv), if conv.Signed? then 10 else conv.radix;
      && (t[0] == '-' <==> conv.Signed? && l < 0)
      && Canonical(if t[0] == '-' then t[1..] else t, radix)
      && EvalSigned(t, radix) == if conv.Signed? then l else l % 0x1_0000_0000
  {
    hide Digits, Eval, Canonical, Meaning;
    var digits := Digits(Magnitude(l, conv), RadixOf(conv));
    NumeralParts(l, conv);
    MeaningSign(l, conv);
    DigitsRead(Magnitude(l, conv), RadixOf(conv));
    NoSign(Magnitude(l, conv), RadixOf(conv));
    assert (['-'] + digits)[1..] == digits;
  }

  lemma MeaningSign(l: int, conv: Conversion)
    requires -0x8000_0000 <= l < 0x8000_0000
    ensures Meaning(l, conv) == if conv.Signed? then l else l % 0x1_0000_0000
    ensures Meaning(l, conv) < 0 <==> conv.Signed? && l < 0
  {}

  // ---- Blanks ----

  /** What is left without the blanks. */
  function Stripped(s: seq<char>): seq<char> {
    if s == [] then []
    else
      var front, last := Stripped(s[..|s| - 1]), s[|s| - 1];
      if last == ' ' then front else front + [last]
  }

  lemma {:induction false} StrippedBlanks(a: seq<char>, s: seq<char>)
    requires forall i :: 0 <= i < |s| ==> s[i] == ' '
    ensures Stripped(a + s) == Stripped(a)
  {
    if s == [] {
      assert a + s == a;
    } else {
      assert (a + s)[..|a + s| - 1] == a + s[..|s| - 1];
      StrippedBlanks(a, s[..|s| - 1]);
    }
  }

  lemma {:induction false} StrippedText(s: seq<char>, t: seq<char>)
    requires forall i :: 0 <= i < |s| ==> s[i] == ' '
    requires forall i :: 0 <= i < |t| ==> t[i] != ' '
    ensures Stripped(s + t) == t
    decreases |t|
  {
    if t == [] {
      assert s + t == [] + s && [] + s == s;
      StrippedBlanks([], s);
    } else {
      assert (s + t)[..|s + t| - 1] == s + t[..|t| - 1];
      StrippedText(s, t[..|t| - 1]);
    }
  }

  lemma NoBlanks(l: int, conv: Conversion, i: nat)
    requires -0x8000_0000 <= l < 0x8000_0000 && i < |Numeral(l, conv)|
    ensures Numeral(l, conv)[i] != ' '
  {
    hide Digits, Meaning;
    NumeralParts(l, conv);
    DigitsRead(Magnitude(l, conv), RadixOf(conv));
  }

  /** What is printed with blanks is, without the blanks, the text of the argument, and so reads back
      as it, for every width and alignment. */
  lemma BlankFilledReadsBack(l: int, conv: Conversion, width: nat, leftAlign: bool, out: seq<char>)
    requires -0x8000_0000 <= l < 0x8000_0000
    requires LaidOut(out, Numeral(l, conv), width, leftAlign, ' ')
    ensures Stripped(out) == Numeral(l, conv)
    ensures EvalSigned(Stripped(out), if conv.Signed? then 10 else conv.radix)
      == if conv.Signed? then l else l % 0x1_0000_0000
  {
    hide Numeral, Stripped, EvalSigned;
    var t := Numeral(l, conv);
    NumeralRead(l, conv);
    forall i | 0 <= i < |t| ensures t[i] != ' ' {
      NoBlanks(l, conv, i);
    }
    if leftAlign {
      assert out == t + out[|t|..];
      StrippedBlanks(t, out[|t|..]);
      assert [] + t == t;
      StrippedText([], t);
    } else {
      assert out == out[..|out| - |t|] + t;
      StrippedText(out[..|out| - |t|], t);
    }
  }

  lemma PowerZero(radix: Radix)
    ensures Power(radix, 0) == 1
  {}

  lemma FillFirst(k: nat)
    ensures k > 0 ==> Fill('0', k)[0] == '0'
  {}

  lemma ScaledOnlyIfOne(m: nat, p: nat)
    requires p >= 1
    ensures m * p == m <==> m == 0 || p == 1
  {}
}
