/** The serial log: the format scanner and number printer of stdlib.c. */
module Logf {
  import opened CStrings

  datatype Level = Other | Info | Warn | Error | Debug

  /** A variadic argument, as the specifier that fetches it sees it. */
  datatype Arg = Str(text: CString) | NullStr | Int(i: int) | UInt(u: nat) | ULong(u: nat)

  function Prefix(level: Level): string {
    match level
    case Info => "[INFO]\t\t"
    case Warn => "[WARN]\t\t"
    case Error => "[ERROR]\t\t"
    case Debug => "[DEBUG]\t\t"
    case Other => ""
  }

  function Digit(d: nat): (c: char)
    requires d < 16
  {
    if d < 10 then '0' + d as char else 'a' + (d - 10) as char
  }

  function DigitValue(c: char): nat {
    if '0' <= c <= '9' then c as nat - '0' as nat
    else if 'a' <= c <= 'f' then c as nat - 'a' as nat + 10
    else 0
  }

  /** The digits of n, most significant first. */
  function Numeral(n: nat, base: nat): (s: string)
    requires 2 <= base <= 16
    ensures s != ""
    decreases n
  {
    if n < base then [Digit(n)] else Numeral(n / base, base) + [Digit(n % base)]
  }

  function Signed(i: int): string {
    if i < 0 then "-" + Numeral(-i, 10) else Numeral(i, 10)
  }

  function Parse(s: string, base: nat): nat {
    if s == "" then 0 else Parse(s[..|s| - 1], base) * base + DigitValue(s[|s| - 1])
  }

  lemma {:induction false} DigitInBase(d: nat, base: nat)
    requires d < base <= 16
    ensures Digit(d) in "0123456789abcdef"[..base]
  {
    assert "0123456789abcdef"[..base][d] == Digit(d);
  }

  lemma {:induction false} DivideByBase(n: nat, base: nat)
    requires 2 <= base <= n
    ensures n / base * base + n % base == n && 1 <= n / base < n
  {
  }

  /** Reading a numeral: no digits are 0, and one digit more, standing at place d of "0123456789abcdef", multiplies
      by the base and adds d. */
  lemma {:induction false} ParseStep(s: string, base: nat, d: nat)
    requires d < 16
    ensures Parse("", base) == 0
    ensures Parse(s + ["0123456789abcdef"[d]], base) == Parse(s, base) * base + d
  {
    var c := "0123456789abcdef"[d];
    assert (s + [c])[..|s|] == s;
    assert DigitValue(c) == d;
  }

  lemma {:induction false} DigitReadsBack(d: nat)
    requires d < 16
    ensures DigitValue(Digit(d)) == d && (Digit(d) == '0' ==> d == 0)
    ensures Digit(d) == "0123456789abcdef"[d]
  {
  }

  /** What is printed reads back as the number, without leading zeros. */
  lemma {:induction false} NumeralReadsBack(n: nat, base: nat)
    requires 2 <= base <= 16
    ensures Parse(Numeral(n, base), base) == n
    ensures Numeral(n, base)[0] == '0' ==> n == 0
    decreases n
  {
    hide Digit, DigitValue;
    DigitReadsBack(n % base);
    var s := Numeral(n, base);
    if n < base {
      assert s[..0] == "";
    } else {
      DivideByBase(n, base);
      NumeralReadsBack(n / base, base);
      assert s[..|s| - 1] == Numeral(n / base, base);
      assert Parse(s, base) == n / base * base + n % base;
    }
  }

  function Power(b: nat, k: nat): nat {
    if k == 0 then 1 else b * Power(b, k - 1)
  }

  lemma {:induction false} ProductMonotone(b: nat, p: nat, q: nat)
    ensures p <= q ==> b * p <= b * q
  {
    assert p <= q ==> b * q == b * p + b * (q - p);
  }

  lemma {:induction false} QuotientBelow(n: nat, base: nat, p: nat)
    requires 2 <= base <= n && n < base * p
    ensures n / base < p
  {
    DivideByBase(n, base);
    ProductMonotone(base, p, n / base);
  }

  /** The last digit of a number, and the number before it, if any. */
  lemma {:induction false} LastDigit(n: nat, base: nat)
    requires 2 <= base <= 16 && 0 < n
    ensures n / base < n
    ensures Numeral(n, base) == (if n / base > 0 then Numeral(n / base, base) else "") + [Digit(n % base)]
  {
    hide Digit;
    if n < base {
      assert n / base == 0 && n % base == n;
      assert Numeral(n, base) == "" + [Digit(n)];
    } else {
      DivideByBase(n, base);
    }
  }

  lemma {:induction false} NumeralLength(n: nat, base: nat, k: nat)
    requires 2 <= base <= 16 && n < Power(base, k) && 0 < k
    ensures |Numeral(n, base)| <= k
    decreases n
  {
    if n < base {
    } else {
      assert k > 1 by {
        assert Power(base, 1) == base * Power(base, 0);
      }
      DivideByBase(n, base);
      QuotientBelow(n, base, Power(base, k - 1));
      NumeralLength(n / base, base, k - 1);
    }
  }

  lemma {:induction false} PowerSum(b: nat, j: nat, k: nat)
    ensures Power(b, j + k) == Power(b, j) * Power(b, k)
  {
    if j == 0 {
    } else {
      PowerSum(b, j - 1, k);
      assert b * (Power(b, j - 1) * Power(b, k)) == (b * Power(b, j - 1)) * Power(b, k);
    }
  }

  lemma {:induction false} PowerTwice(b: nat, k: nat)
    ensures Power(b, 2 * k) == Power(b, k) * Power(b, k)
  {
    PowerSum(b, k, k);
  }

  lemma {:induction false} Powers()
    ensures Power(10, 20) == 100_000_000_000_000_000_000
    ensures Power(16, 16) == 0x1_0000_0000_0000_0000
  {
    PowerTwice(10, 5);
    PowerTwice(10, 10);
    PowerTwice(16, 4);
    PowerTwice(16, 8);
    assert Power(10, 5) == 10 * 10 * 10 * 10 * 10;
    assert Power(16, 4) == 16 * 16 * 16 * 16;
  }

  /** 64-bit numbers fit the 32-byte buffer: at most 20 decimal or 16 hexadecimal digits. */
  lemma {:induction false} NumeralsFit(n: nat)
    requires n < 0x1_0000_0000_0000_0000
    ensures |Numeral(n, 10)| <= 20 && |Numeral(n, 16)| <= 16
  {
    Powers();
    NumeralLength(n, 10, 20);
    NumeralLength(n, 16, 16);
  }

  /** The first thing a format text prints: an ordinary character or what a specifier stands for; how many
      characters of the text it takes, and how many arguments. */
  datatype Item = Item(text: string, width: nat, used: nat)

  /** The argument the first specifier fetches is there, with its C type and range; %d excludes the least int,
      whose negation overflows. */
  predicate FitsFirst(t: string, args: seq<Arg>) {
    t != "" &&
    (t[0] == '%' && |t| > 1 ==>
       match t[1]
       case 's' => |args| > 0 && (args[0].Str? || args[0].NullStr?)
       case 'd' => |args| > 0 && args[0].Int? && -0x8000_0000 < args[0].i < 0x8000_0000
       case 'x' => |args| > 0 && args[0].UInt? && args[0].u < 0x1_0000_0000
       case 'l' => |t| > 2 && (t[2] == 'd' || t[2] == 'x') ==>
                     |args| > 0 && args[0].ULong? && args[0].u < 0x1_0000_0000_0000_0000
       case _ => true)
  }

  function FirstItem(t: string, args: seq<Arg>): (item: Item)
    requires FitsFirst(t, args)
    ensures 0 < item.width <= |t| && item.used <= |args|
  {
    if t[0] != '%' || |t| == 1 then Item([t[0]], 1, 0)
    else match t[1]
      case 's' => Item(if args[0].Str? then CText(args[0].text) else "", 2, 1)
      case 'd' => Item(Signed(args[0].i), 2, 1)
      case 'x' => Item(Numeral(args[0].u, 16), 2, 1)
      case 'l' =>
        if |t| == 2 then Item("", 2, 0)
        else if t[2] == 'd' then Item(Numeral(args[0].u, 10), 3, 1)
        else if t[2] == 'x' then Item(Numeral(args[0].u, 16), 3, 1)
        else Item(['%', 'l', t[2]], 3, 0)
      case c => Item(['%', c], 2, 0)
  }

  predicate Fits(t: string, args: seq<Arg>)
    decreases |t|
  {
    t == "" || (FitsFirst(t, args) && Fits(t[FirstItem(t, args).width..], args[FirstItem(t, args).used..]))
  }

  /** What a format text prints with the given arguments. */
  function Render(t: string, args: seq<Arg>): string
    requires Fits(t, args)
    decreases |t|
  {
    if t == "" then ""
    else
      var item := FirstItem(t, args);
      item.text + Render(t[item.width..], args[item.used..])
  }

  lemma {:induction false} OrdinaryItem(t: string, args: seq<Arg>)
    requires t != "" && t[0] != '%'
    ensures FitsFirst(t, args) && FirstItem(t, args) == Item([t[0]], 1, 0)
  {
  }

  /** Text without '%' is printed as it stands, whatever follows. */
  lemma {:induction false} PlainTextPrintsItself(p: string, t: string, args: seq<Arg>)
    requires '%' !in p && Fits(t, args)
    ensures Fits(p + t, args) && Render(p + t, args) == p + Render(t, args)
  {
    hide FirstItem, FitsFirst;
    if p == "" {
      assert p + t == t;
    } else {
      assert args[0..] == args;
      assert (p + t)[0] == p[0] && (p + t)[1..] == p[1..] + t;
      PlainTextPrintsItself(p[1..], t, args);
      OrdinaryItem(p + t, args);
      assert Render(p + t, args) == [p[0]] + Render(p[1..] + t, args);
    }
  }

  lemma {:induction false} NumeralDigits(n: nat, base: nat)
    requires 2 <= base <= 16
    ensures n == 0 ==> Numeral(n, base) == "0"
    ensures forall c :: c in Numeral(n, base) ==> c in "0123456789abcdef"[..base]
    decreases n
  {
    hide Digit;
    if n < base {
      DigitReadsBack(0);
      DigitInBase(n, base);
    } else {
      DivideByBase(n, base);
      NumeralDigits(n / base, base);
      DigitInBase(n % base, base);
    }
  }

  lemma {:induction false} PlainNumeral(n: nat, base: nat)
    requires base == 10 || base == 16
    ensures var s := Numeral(n, base);
      && s != "" && Parse(s, base) == n && (|s| == 1 || s[0] != '0')
      && forall c :: c in s ==> c in if base == 10 then "0123456789" else "0123456789abcdef"
  {
    hide Parse, Numeral;
    NumeralReadsBack(n, base);
    NumeralDigits(n, base);
    assert "0123456789abcdef"[..10] == "0123456789" && "0123456789abcdef"[..16] == "0123456789abcdef";
  }

  /** %x prints an unsigned int in hexadecimal. */
  lemma {:induction false} HexadecimalPrints(t: string, args: seq<Arg>, n: nat) returns (s: string)
    requires n < 0x1_0000_0000 && Fits(t, args)
    ensures Fits("%x" + t, [UInt(n)] + args)
    ensures Render("%x" + t, [UInt(n)] + args) == s + Render(t, args)
    ensures s != "" && Parse(s, 16) == n && (|s| == 1 || s[0] != '0') && forall c :: c in s ==> c in "0123456789abcdef"
  {
    hide Numeral, Parse;
    var format, all := "%x" + t, [UInt(n)] + args;
    assert format[2..] == t && all[1..] == args;
    s := Numeral(n, 16);
    PlainNumeral(n, 16);
  }

  /** %lx prints 64 bits in hexadecimal. */
  lemma {:induction false} LongHexadecimalPrints(t: string, args: seq<Arg>, n: nat) returns (s: string)
    requires n < 0x1_0000_0000_0000_0000 && Fits(t, args)
    ensures Fits("%lx" + t, [ULong(n)] + args)
    ensures Render("%lx" + t, [ULong(n)] + args) == s + Render(t, args)
    ensures s != "" && Parse(s, 16) == n && (|s| == 1 || s[0] != '0') && forall c :: c in s ==> c in "0123456789abcdef"
  {
    hide Numeral, Parse;
    var format, all := "%lx" + t, [ULong(n)] + args;
    assert format[3..] == t && all[1..] == args;
    s := Numeral(n, 16);
    PlainNumeral(n, 16);
  }

  /** %ld prints 64 bits in decimal, without a sign. */
  lemma {:induction false} LongDecimalPrints(t: string, args: seq<Arg>, n: nat) returns (s: string)
    requires n < 0x1_0000_0000_0000_0000 && Fits(t, args)
    ensures Fits("%ld" + t, [ULong(n)] + args)
    ensures Render("%ld" + t, [ULong(n)] + args) == s + Render(t, args)
    ensures s != "" && Parse(s, 10) == n && (|s| == 1 || s[0] != '0') && forall c :: c in s ==> c in "0123456789"
  {
    hide Numeral, Parse;
    var format, all := "%ld" + t, [ULong(n)] + args;
    assert format[3..] == t && all[1..] == args;
    s := Numeral(n, 10);
    PlainNumeral(n, 10);
  }

  /** %d prints a minus exactly for negative numbers, then the magnitude in decimal. */
  lemma {:induction false} DecimalPrints(t: string, args: seq<Arg>, i: int) returns (s: string)
    requires -0x8000_0000 < i < 0x8000_0000 && Fits(t, args)
    ensures Fits("%d" + t, [Int(i)] + args)
    ensures Render("%d" + t, [Int(i)] + args) == (if i < 0 then "-" else "") + s + Render(t, args)
    ensures s != "" && Parse(s, 10) == (if i < 0 then -i else i) && (|s| == 1 || s[0] != '0')
    ensures forall c :: c in s ==> c in "0123456789"
  {
    hide Numeral, Parse;
    var format, all := "%d" + t, [Int(i)] + args;
    assert format[2..] == t && all[1..] == args;
    s := Numeral(if i < 0 then -i else i, 10);
    PlainNumeral(if i < 0 then -i else i, 10);
    assert Signed(i) == (if i < 0 then "-" else "") + s;
  }

  /** %s prints the text before the NUL, and nothing for a null pointer. */
  lemma {:induction false} StringPrints(t: string, args: seq<Arg>, text: string, rest: string)
    requires Fits(t, args) && '\0' !in text
    ensures '\0' in text + "\0" + rest
    ensures Fits("%s" + t, [Str(text + "\0" + rest)] + args) && Fits("%s" + t, [NullStr] + args)
    ensures Render("%s" + t, [Str(text + "\0" + rest)] + args) == text + Render(t, args)
    ensures Render("%s" + t, [NullStr] + args) == Render(t, args)
  {
    hide CText;
    var str := text + "\0" + rest;
    assert str[|text|] == '\0';
    TextBeforeNul(text, rest);
    assert ("%s" + t)[2..] == t && ([Str(str)] + args)[1..] == args && ([NullStr] + args)[1..] == args;
    assert "" + Render(t, args) == Render(t, args);
  }

  /** An unknown specifier comes out as it stands and fetches nothing. */
  lemma {:induction false} UnknownPrints(t: string, args: seq<Arg>, c: char)
    requires Fits(t, args)
    ensures c != 's' && c != 'd' && c != 'x' && c != 'l' ==>
      Fits("%" + [c] + t, args) && Render("%" + [c] + t, args) == "%" + [c] + Render(t, args)
    ensures c != 'd' && c != 'x' ==>
      Fits("%l" + [c] + t, args) && Render("%l" + [c] + t, args) == "%l" + [c] + Render(t, args)
  {
    var short, long := "%" + [c] + t, "%l" + [c] + t;
    assert args[0..] == args;
    assert short[2..] == t && short[1] == c;
    assert long[3..] == t && long[1] == 'l' && long[2] == c;
    assert "%" + [c] == ['%', c] && "%l" + [c] == ['%', 'l', c];
  }

  /** A percent sign at the end is printed; "%l" at the end is swallowed. */
  lemma {:induction false} TrailingPercentPrints(args: seq<Arg>)
    ensures Fits("", args) && Render("", args) == ""
    ensures Fits("%", args) && Render("%", args) == "%"
    ensures Fits("%l", args) && Render("%l", args) == ""
  {
    assert "%"[1..] == "" && "%l"[2..] == "";
  }

  /** The level can be read off any line: no two levels print lines with a common beginning. */
  lemma {:induction false} LevelReadsBack(p: Level, q: Level, s: string, t: string)
    requires p != Other && q != Other && Prefix(p) + s == Prefix(q) + t
    ensures p == q && s == t
  {
    var line := Prefix(p) + s;
    assert line[1] == Prefix(p)[1] && line[1] == Prefix(q)[1];
    assert s == line[|Prefix(p)|..] && t == line[|Prefix(q)|..];
  }

  function Reversed(s: string): (r: string)
    ensures |r| == |s|
  {
    if s == "" then "" else Reversed(s[1..]) + [s[0]]
  }

  lemma {:induction false} ReversedNothing()
    ensures Reversed("") == ""
  {
  }

  lemma {:induction false} ZeroNumeral(base: nat)
    requires 2 <= base <= 16
    ensures Numeral(0, base) == "" + [Digit(0 % base)] && 0 / base == 0
  {
  }

  lemma {:induction false} ReversedSnoc(s: string, c: char)
    ensures Reversed(s + [c]) == [c] + Reversed(s)
  {
    if s == "" {
    } else {
      ReversedSnoc(s[1..], c);
      assert (s + [c])[1..] == s[1..] + [c];
    }
  }

  lemma {:induction false} PrefixTexts(level: Level)
    ensures Prefix(level)
         == match level
            case Info => "[INFO]\t\t"
            case Warn => "[WARN]\t\t"
            case Error => "[ERROR]\t\t"
            case Debug => "[DEBUG]\t\t"
            case Other => ""
  {
  }

  lemma {:induction false} PrefixPlain(level: Level)
    ensures '\0' !in Prefix(level)
  {
  }

  class Serial {
    var output: string

    constructor ()
      ensures output == ""
    {
      output := "";
    }

    method WriteSerial(c: char)
      modifies this
      ensures output == old(output) + [c]
    {
      output := output + [c];
    }

    /** Sends a C string up to its NUL. */
    method SerialLog(str: CString)
      modifies this
      ensures output == old(output) + CText(str)
    {
      var i := 0;
      while str[i] != '\0'
        invariant i <= |CText(str)| && output == old(output) + str[..i]
        decreases |CText(str)| - i
      {
        WriteSerial(str[i]);
        i := i + 1;
      }
    }

    /** Fills the buffer with digits from the least significant one, then sends them in reverse. */
    method WriteNumber(n: nat, base: nat)
      requires (base == 10 || base == 16) && n < 0x1_0000_0000_0000_0000
      modifies this
      ensures output == old(output) + Numeral(n, base)
    {
      hide Numeral, Reversed;
      ReversedNothing();
      var buffer := new char[32];
      var i := FillDigits(n, base, buffer);
      var j: nat := i;
      while j > 0
        invariant j <= i
        invariant output + Reversed(buffer[..j]) == old(output) + Numeral(n, base)
      {
        j := j - 1;
        assert buffer[..j + 1] == buffer[..j] + [buffer[j]];
        ReversedSnoc(buffer[..j], buffer[j]);
        WriteSerial(buffer[j]);
      }
      assert buffer[..0] == "";
    }

    static method FillDigits(n: nat, base: nat, buffer: array<char>) returns (i: nat)
      requires (base == 10 || base == 16) && n < 0x1_0000_0000_0000_0000 && buffer.Length == 32
      modifies buffer
      ensures i <= 20 && Reversed(buffer[..i]) == Numeral(n, base)
    {
      hide Numeral, Digit, Reversed;
      NumeralsFit(n);
      ZeroNumeral(base);
      if n > 0 {
        LastDigit(n, base);
      }
      ReversedNothing();
      var rest := n / base;
      buffer[0] := Digit(n % base);
      i := 1;
      assert buffer[..1] == "" + [buffer[0]];
      ReversedSnoc("", buffer[0]);
      while rest > 0
        invariant 0 < i && i + (if rest > 0 then |Numeral(rest, base)| else 0) == |Numeral(n, base)|
        invariant Numeral(n, base) == (if rest > 0 then Numeral(rest, base) else "") + Reversed(buffer[..i])
      {
        var before := buffer[..i];
        LastDigit(rest, base);
        buffer[i] := Digit(rest % base);
        assert buffer[..i + 1] == before + [Digit(rest % base)];
        ReversedSnoc(before, Digit(rest % base));
        rest := rest / base;
        i := i + 1;
      }
    }

    /** One turn of the scanner at position s, where the next argument is number a. */
    method PrintItem(format: CString, s: nat, args: seq<Arg>, a: nat) returns (s': nat, a': nat)
      requires s < |CText(format)| && a <= |args| && FitsFirst(CText(format)[s..], args[a..])
      modifies this
      ensures output == old(output) + FirstItem(CText(format)[s..], args[a..]).text
      ensures s' == s + FirstItem(CText(format)[s..], args[a..]).width
      ensures a' == a + FirstItem(CText(format)[s..], args[a..]).used
    {
      hide Numeral, Digit, CText;
      ghost var n := |CText(format)|;
      ghost var t := CText(format)[s..];
      assert t == format[s..n] && '\0' !in format[..n];
      assert t[0] == format[s] && (s + 1 < n ==> t[1] == format[s + 1]) && (s + 2 < n ==> t[2] == format[s + 2]);
      s', a' := s, a;
      if format[s'] == '%' && format[s' + 1] != '\0' {
        s' := s' + 1;
        match format[s'] {
          case 's' =>
            if args[a'].Str? {
              SerialLog(args[a'].text);
            }
            a' := a' + 1;
          case 'd' =>
            var arg := args[a'].i;
            if arg < 0 {
              arg := -arg;
              WriteSerial('-');
            }
            WriteNumber(arg, 10);
            a' := a' + 1;
          case 'x' =>
            WriteNumber(args[a'].u, 16);
            a' := a' + 1;
          case 'l' =>
            if format[s' + 1] != '\0' {
              s' := s' + 1;
              match format[s'] {
                case 'd' =>
                  WriteNumber(args[a'].u, 10);
                  a' := a' + 1;
                case 'x' =>
                  WriteNumber(args[a'].u, 16);
                  a' := a' + 1;
                case c =>
                  WriteSerial('%');
                  WriteSerial('l');
                  WriteSerial(c);
              }
            }
          case c =>
            WriteSerial('%');
            WriteSerial(c);
        }
      } else {
        WriteSerial(format[s']);
      }
      s' := s' + 1;
    }

    /** Prints the level's prefix and the rendered format, never reading past the terminator. */
    method Log(level: Level, format: CString, args: seq<Arg>)
      requires Fits(CText(format), args)
      modifies this
      ensures var prefix := match level
                            case Info => "[INFO]\t\t"
                            case Warn => "[WARN]\t\t"
                            case Error => "[ERROR]\t\t"
                            case Debug => "[DEBUG]\t\t"
                            case Other => "";
        output == old(output) + prefix + Render(CText(format), args)
    {
      hide FirstItem, FitsFirst, Prefix, CText;
      PrefixPlain(level);
      PrefixTexts(level);
      TextOfStored(Prefix(level));
      SerialLog(Prefix(level) + "\0");
      ghost var start := output;
      ghost var text := CText(format);
      var s, a := 0, 0;
      assert text[0..] == text && args[0..] == args;
      while format[s] != '\0'
        invariant s <= |text| && a <= |args| && Fits(text[s..], args[a..])
        invariant output + Render(text[s..], args[a..]) == start + Render(text, args)
        decreases |text| - s
      {
        ghost var t, rest, printed := text[s..], args[a..], output;
        assert s < |text|;
        s, a := PrintItem(format, s, args, a);
        assert text[s..] == t[FirstItem(t, rest).width..] && args[a..] == rest[FirstItem(t, rest).used..];
        assert output + Render(text[s..], args[a..]) == printed + Render(t, rest);
      }
      assert s == |text|;
      assert output + "" == output;
    }
  }
}
