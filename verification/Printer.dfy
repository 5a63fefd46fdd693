/** Numbers as text: num_fmt, vsprintf and str2num. */
module Printer {
  import opened Bits
  import opened Options

  type u16 = x: nat | x < 0x1_0000
  type u32 = x: nat | x < 0x1_0000_0000

  // ---------- Digits ----------

  /** n2c. */
  function DigitChar(d: nat): char
    requires d < 16
  {
    if d <= 9 then ('0' as int + d) as char else ('A' as int + d - 10) as char
  }

  predicate IsBase(b: nat) {
    b == 8 || b == 10 || b == 16
  }

  /** Division by one of the bases. */
  function Quot(n: nat, b: nat): nat
    requires IsBase(b)
  {
    if b == 8 then n / 8 else if b == 10 then n / 10 else n / 16
  }

  function Rem(n: nat, b: nat): nat
    requires IsBase(b)
  {
    if b == 8 then n % 8 else if b == 10 then n % 10 else n % 16
  }

  /** The numeral of n, most significant digit first. */
  function Digits(n: nat, b: nat): string
    requires IsBase(b)
  {
    if n < b then [DigitChar(n)] else Digits(Quot(n, b), b) + [DigitChar(Rem(n, b))]
  }

  function DigitValue(ch: char): Option<nat> {
    if '0' <= ch <= '9' then Some(ch as int - '0' as int)
    else if 'a' <= ch <= 'f' then Some(ch as int - 'a' as int + 10)
    else if 'A' <= ch <= 'F' then Some(ch as int - 'A' as int + 10)
    else None
  }

  lemma DigitRoundTrip(d: nat)
    requires d < 16
    ensures DigitValue(DigitChar(d)) == Some(d)
    ensures d <= 9 ==> '0' <= DigitChar(d) <= '9'
  {
  }

  predicate AllDigits(s: string) {
    forall k :: 0 <= k < |s| ==> DigitValue(s[k]).Some?
  }

  function Times(b: nat, x: nat): nat
    requires IsBase(b)
  {
    if b == 8 then 8 * x else if b == 10 then 10 * x else 16 * x
  }

  /** The number that the first n digits denote in base b. */
  function Value(s: string, n: nat, b: nat): nat
    requires n <= |s| && AllDigits(s) && IsBase(b)
  {
    if n == 0 then 0 else Times(b, Value(s, n - 1, b)) + DigitValue(s[n - 1]).value
  }

  lemma {:induction false} ValueOfPrefix(s: string, t: string, n: nat, b: nat)
    requires n <= |s| && AllDigits(s) && AllDigits(t) && s <= t && IsBase(b)
    ensures Value(t, n, b) == Value(s, n, b)
  {
    if n > 0 { ValueOfPrefix(s, t, n - 1, b); }
  }

  lemma ValueAppend(h: string, c: char, b: nat)
    requires AllDigits(h) && DigitValue(c).Some? && IsBase(b)
    ensures AllDigits(h + [c]) && Value(h + [c], |h| + 1, b) == Times(b, Value(h, |h|, b)) + DigitValue(c).value
  {
    ValueOfPrefix(h, h + [c], |h|, b);
  }

  lemma Quotient(n: nat, b: nat)
    requires IsBase(b)
    ensures Times(b, Quot(n, b)) + Rem(n, b) == n && Quot(n, b) <= n / 8 && Rem(n, b) < b
  {
  }

  /** A numeral denotes its number. */
  lemma {:induction false} DigitsValue(n: nat, b: nat)
    requires IsBase(b)
    ensures AllDigits(Digits(n, b)) && |Digits(n, b)| > 0 && Value(Digits(n, b), |Digits(n, b)|, b) == n
  {
    if n < b {
      DigitRoundTrip(n);
      ValueAppend("", DigitChar(n), b);
      assert "" + [DigitChar(n)] == Digits(n, b);
    } else {
      Quotient(n, b);
      DigitRoundTrip(Rem(n, b));
      DigitsValue(Quot(n, b), b);
      ValueAppend(Digits(Quot(n, b), b), DigitChar(Rem(n, b)), b);
    }
  }

  function Repeat(c: char, n: nat): (s: string)
    ensures |s| == n && forall k :: 0 <= k < n ==> s[k] == c
  {
    seq(n, _ => c)
  }

  /** Leading zeros do not matter. */
  lemma {:induction false} LeadingZeros(z: nat, s: string, n: nat, b: nat)
    requires n <= |s| && AllDigits(s) && IsBase(b)
    ensures AllDigits(Repeat('0', z) + s) && Value(Repeat('0', z) + s, z + n, b) == Value(s, n, b)
    decreases z + n
  {
    var t := Repeat('0', z) + s;
    if n > 0 {
      LeadingZeros(z, s, n - 1, b);
      assert t[z + n - 1] == s[n - 1];
    } else if z > 0 {
      LeadingZeros(z - 1, s, 0, b);
      ZerosAlone(z, s, b);
    }
  }

  lemma {:induction false} ZerosAlone(z: nat, s: string, b: nat)
    requires AllDigits(s) && IsBase(b)
    ensures AllDigits(Repeat('0', z) + s) && Value(Repeat('0', z) + s, z, b) == 0
  {
    var t := Repeat('0', z) + s;
    if z > 0 {
      ZerosAlone(z - 1, ['0'] + s, b);
      assert Repeat('0', z - 1) + (['0'] + s) == t;
      assert t[z - 1] == '0';
    }
  }

  // ---------- str2num ----------

  /** A hexadecimal prefix, and where the digits begin. */
  predicate HexPrefixed(s: string) {
    |s| >= 2 && s[0] == '0' && (s[1] == 'x' || s[1] == 'X')
  }

  function Parsed(s: string): u32 {
    if HexPrefixed(s) then ParsedAs(s[2..], 16) else ParsedAs(s, 10)
  }

  function ParsedAs(digits: string, b: nat): u32
    requires IsBase(b)
  {
    if AllDigits(digits) then Value(digits, |digits|, b) % 0x1_0000_0000 else 0
  }

  /**
   * str2num, on the characters before the terminator. Hexadecimal digits
   * count in either base, anything else makes the result 0, and the
   * arithmetic is that of 32-bit words.
   */
  method Str2Num(str: string) returns (ret: u32)
    ensures ret == Parsed(str)
  {
    var p: nat := 0;
    var base := 10;
    if |str| >= 2 && str[0] == '0' && (str[1] == 'x' || str[1] == 'X') {
      base, p := 16, 2;
    }
    ret := ParseDigits(str[p..], base);
  }

  method ParseDigits(digits: string, base: nat) returns (ret: u32)
    requires base == 10 || base == 16
    ensures ret == ParsedAs(digits, base)
  {
    ret := 0;
    var i: nat := 0;
    while i < |digits|
      invariant i <= |digits| && AllDigits(digits[..i]) && ret == Value(digits[..i], i, base) % 0x1_0000_0000
    {
      var ch := digits[i];
      assert digits[..i + 1] == digits[..i] + [ch];
      ghost var before := ret;
      ret := Times(base, ret) % 0x1_0000_0000;
      if '0' <= ch <= '9' {
        ret := (ret + (ch as int - '0' as int)) % 0x1_0000_0000;
      } else if 'a' <= ch <= 'f' {
        ret := (ret + (ch as int - 'a' as int + 10)) % 0x1_0000_0000;
      } else if 'A' <= ch <= 'F' {
        ret := (ret + (ch as int - 'A' as int + 10)) % 0x1_0000_0000;
      } else {
        return 0;
      }
      TakeDigit(digits[..i], ch, base, before);
      i := i + 1;
    }
    assert digits[..i] == digits;
  }

  lemma TakeDigit(s: string, ch: char, base: nat, ret: u32)
    requires AllDigits(s) && DigitValue(ch).Some? && IsBase(base) && ret == Value(s, |s|, base) % 0x1_0000_0000
    ensures AllDigits(s + [ch])
    ensures (Times(base, ret) % 0x1_0000_0000 + DigitValue(ch).value) % 0x1_0000_0000
         == Value(s + [ch], |s| + 1, base) % 0x1_0000_0000
  {
    ValueAppend(s, ch, base);
    WrapStep(base, Value(s, |s|, base), DigitValue(ch).value);
  }

  /** Reducing at each step is reducing at the end. */
  lemma WrapStep(b: nat, x: nat, d: nat)
    requires IsBase(b)
    ensures (Times(b, x % 0x1_0000_0000) % 0x1_0000_0000 + d) % 0x1_0000_0000 == (Times(b, x) + d) % 0x1_0000_0000
  {
    var q, r := x / 0x1_0000_0000, x % 0x1_0000_0000;
    var q', r' := Times(b, r) / 0x1_0000_0000, Times(b, r) % 0x1_0000_0000;
    assert Times(b, x) + d == (r' + d) + 0x1_0000_0000 * (Times(b, q) + q');
    DropWords(r' + d, Times(b, q) + q');
  }

  lemma DropWords(a: nat, q: nat)
    ensures (a + 0x1_0000_0000 * q) % 0x1_0000_0000 == a % 0x1_0000_0000
  {
  }

  // ---------- num_fmt ----------

  /** The sign, if any, and the digits. */
  function Core(num: u32, b: nat, prefix: char): string
    requires IsBase(b)
  {
    (if prefix == '\0' then "" else [prefix]) + Digits(num, b)
  }

  /** Padding to the width on the side and with the character that the flag asks for. */
  function Padded(core: string, width: nat, flag: char): (r: Option<string>)
    ensures r.Some? ==> |r.value| == if |core| >= width then |core| else width
  {
    if |core| >= width then Some(core)
    else if flag == '#' then Some(Repeat('0', width - |core|) + core)
    else if flag == ' ' then Some(Repeat(' ', width - |core|) + core)
    else if flag == '+' then Some(core + Repeat(' ', width - |core|))
    else None
  }

  /** The field that num_fmt writes. */
  function NumText(num: u32, b: nat, width: nat, prefix: char, flag: char): Option<string>
    requires IsBase(b)
  {
    Padded(Core(num, b, prefix), width, flag)
  }

  /** A 32-bit number has at most eleven digits in base 8 or more. */
  lemma {:induction false} DigitsFit(n: nat, b: nat, k: nat)
    requires IsBase(b) && k > 0 && n < Pow2(3 * k)
    ensures |Digits(n, b)| <= k
  {
    if n >= b {
      var j := k - 1;
      assert 3 * k == 3 * j + 3;
      assert Pow2(3 * j + 3) == 2 * Pow2(3 * j + 2) == 4 * Pow2(3 * j + 1) == 8 * Pow2(3 * j);
      Quotient(n, b);
      if j > 0 { DigitsFit(Quot(n, b), b, j); }
    }
  }

  lemma WordDigits(n: u32, b: nat)
    requires IsBase(b)
    ensures 0 < |Digits(n, b)| <= 11
  {
    Pow2Values();
    assert Pow2(33) == 2 * Pow2(32);
    DigitsFit(n, b, 11);
    DigitsValue(n, b);
  }

  /** The first half of num_fmt: digits from the end of the buffer backwards. */
  method PutDigits(num0: u32, tempbuf: array<char>, basenum: nat) returns (idx: nat, len: nat)
    requires tempbuf.Length == 16 && IsBase(basenum)
    modifies tempbuf
    ensures 5 <= idx < 16 && idx + len == 16 && tempbuf[idx..] == Digits(num0, basenum)
  {
    var num: u32 := num0;
    idx, len := 16, 0;
    if num == 0 {
      idx := idx - 1;
      tempbuf[idx] := '0';
      len := len + 1;
    } else {
      assert tempbuf[16..] == "";
      while num != 0
        invariant idx <= 16 && idx + len == 16 && DigitsSoFar(num0, num, basenum, tempbuf[idx..])
        decreases num
      {
        ghost var tail := tempbuf[idx..];
        OneMoreDigit(num0, num, basenum, tail);
        idx := idx - 1;
        tempbuf[idx] := DigitChar(Rem(num, basenum));
        assert tempbuf[idx..] == [DigitChar(Rem(num, basenum))] + tail;
        num := Quot(num, basenum);
        len := len + 1;
      }
    }
    assert tempbuf[idx..] == Digits(num0, basenum);
    WordDigits(num0, basenum);
  }

  ghost predicate DigitsSoFar(num0: u32, num: u32, b: nat, tail: string)
    requires IsBase(b)
  {
    Digits(num0, b) == if num == 0 then tail else Digits(num, b) + tail
  }

  lemma OneMoreDigit(num0: u32, num: u32, b: nat, tail: string)
    requires IsBase(b) && num > 0 && DigitsSoFar(num0, num, b, tail)
    ensures Rem(num, b) < 16 && Quot(num, b) < num && |tail| <= 10
    ensures DigitsSoFar(num0, Quot(num, b), b, [DigitChar(Rem(num, b))] + tail)
  {
    Quotient(num, b);
    WordDigits(num0, b);
    WordDigits(num, b);
    if num < b {
      assert Rem(num, b) == num && Quot(num, b) == 0;
    } else {
      var h, c := Digits(Quot(num, b), b), [DigitChar(Rem(num, b))];
      assert h + c + tail == h + (c + tail);
    }
  }

  // ---------- Writing into a buffer ----------

  /** Only the positions from `at` to `to` of the buffer may differ. */
  ghost predicate OnlyBetween(before: seq<char>, after: seq<char>, at: nat, to: nat) {
    |after| == |before| && forall x :: 0 <= x < |before| && !(at <= x < to) ==> after[x] == before[x]
  }

  /** The text, if there is one, would lie inside a buffer of n characters. */
  predicate FitsAt(t: Option<string>, at: nat, n: nat) {
    t.Some? ==> at + |t.value| <= n
  }

  /** The text is at its place, its length is reported, and nothing else changed; no text leaves all as it was. */
  ghost predicate Written(before: seq<char>, after: seq<char>, at: nat, t: Option<string>, r: Option<nat>) {
    if t.None? then r.None? && after == before
    else
      && r == Some(|t.value|) && at + |t.value| <= |after|
      && after[at..at + |t.value|] == t.value && OnlyBetween(before, after, at, at + |t.value|)
  }

  /** memcpy of characters. */
  method PutText(buf: array<char>, at: nat, text: string)
    requires at + |text| <= buf.Length
    modifies buf
    ensures buf[at..at + |text|] == text && OnlyBetween(old(buf[..]), buf[..], at, at + |text|)
  {
    forall x | at <= x < at + |text| {
      buf[x] := text[x - at];
    }
  }

  /** memset. */
  method Fill(buf: array<char>, at: nat, c: char, n: nat)
    requires at + n <= buf.Length
    modifies buf
    ensures buf[at..at + n] == Repeat(c, n) && OnlyBetween(old(buf[..]), buf[..], at, at + n)
  {
    forall x | at <= x < at + n {
      buf[x] := c;
    }
  }

  /** num_fmt at position `at` of the buffer; None where its ASSERT fails. */
  method NumFmt(num: u32, buf: array<char>, at: nat, basenum: nat, width: u16, prefix: char, flag: char)
    returns (r: Option<u16>)
    requires IsBase(basenum) && FitsAt(NumText(num, basenum, width, prefix, flag), at, buf.Length)
    modifies buf
    ensures Written(old(buf[..]), buf[..], at, NumText(num, basenum, width, prefix, flag), r)
  {
    var tempbuf := new char[16];
    var idx, len := PutDigits(num, tempbuf, basenum);
    if prefix != '\0' {
      ghost var digits := tempbuf[idx..];
      idx := idx - 1;
      tempbuf[idx] := prefix;
      len := len + 1;
      assert tempbuf[idx..] == [prefix] + digits;
    }
    ghost var core := Core(num, basenum, prefix);
    assert tempbuf[idx..] == core;
    r := Pad(buf, at, tempbuf[idx..], width, flag);
  }

  /** The second half of num_fmt, on the core text. */
  method Pad(buf: array<char>, at: nat, core: string, width: u16, flag: char) returns (r: Option<u16>)
    requires |core| < 0x1_0000 && FitsAt(Padded(core, width, flag), at, buf.Length)
    modifies buf
    ensures Written(old(buf[..]), buf[..], at, Padded(core, width, flag), r)
  {
    if |core| >= width {
      PutText(buf, at, core);
      return Some(|core|);
    }
    if flag == '#' || flag == ' ' {
      PadBefore(buf, at, core, width, if flag == '#' then '0' else ' ');
    } else if flag == '+' {
      PadBehind(buf, at, core, width);
    } else {
      return None;
    }
    return Some(width);
  }

  method PadBefore(buf: array<char>, at: nat, core: string, width: u16, c: char)
    requires |core| < width && at + width <= buf.Length
    modifies buf
    ensures buf[at..at + width] == Repeat(c, width - |core|) + core
    ensures OnlyBetween(old(buf[..]), buf[..], at, at + width)
  {
    var n := width - |core|;
    Fill(buf, at, c, n);
    ghost var mid := buf[..];
    PutText(buf, at + n, core);
    Joined(mid, buf[..], at, at + n, at + width);
  }

  method PadBehind(buf: array<char>, at: nat, core: string, width: u16)
    requires |core| < width && at + width <= buf.Length
    modifies buf
    ensures buf[at..at + width] == core + Repeat(' ', width - |core|)
    ensures OnlyBetween(old(buf[..]), buf[..], at, at + width)
  {
    PutText(buf, at, core);
    ghost var mid := buf[..];
    Fill(buf, at + |core|, ' ', width - |core|);
    Joined(mid, buf[..], at, at + |core|, at + width);
  }

  /** What was written first is still there. */
  lemma Joined(mid: seq<char>, after: seq<char>, a: nat, b: nat, c: nat)
    requires a <= b <= c <= |mid| && OnlyBetween(mid, after, b, c)
    ensures after[a..c] == mid[a..b] + after[b..c]
  {
  }

  // ---------- vsprintf ----------

  /** An argument word, and for %s the string at that address. */
  datatype Arg = Arg(word: u32, text: string)

  datatype State = Chars | PreFlag | PreWidth | PrePerc

  /** The variables of vsprintf: what is printed so far, and the arguments left. */
  datatype Machine = Machine(state: State, width: u16, flag: char, out: string, args: seq<Arg>)

  function Start(args: seq<Arg>): Machine {
    Machine(Chars, 0, ' ', "", args)
  }

  /** The text of one conversion; numbers at or above 2^31 are negative for %d. */
  function FieldText(kind: char, arg: Arg, width: nat, flag: char): Option<string> {
    if kind == 'd' || kind == 'i' then
      if arg.word >= 0x8000_0000 then NumText(0x1_0000_0000 - arg.word, 10, width, '-', flag)
      else NumText(arg.word, 10, width, '\0', flag)
    else if kind == 'x' || kind == 'X' then NumText(arg.word, 16, width, '\0', flag)
    else if kind == 'c' then Some([(arg.word % 0x100) as char])
    else if kind == 's' then Some(arg.text)
    else None
  }

  predicate IsFlag(ch: char) {
    ch == '#' || ch == '+' || ch == '-' || ch == ' '
  }

  /** One round of the loop; None where an ASSERT fails or an argument is missing. */
  function Step(m: Machine, ch: char): Option<Machine> {
    if m.state.Chars? then
      Some(if ch == '%' then m.(state := PreFlag, width := 0, flag := ' ') else m.(out := m.out + [ch]))
    else if IsFlag(ch) then
      if m.state.PreFlag? then Some(m.(flag := ch, state := PreWidth)) else None
    else if '0' <= ch <= '9' then
      if m.state.PrePerc? then None else Some(m.(width := (m.width * 10 + (ch as int - '0' as int)) % 0x1_0000))
    else if ch == '.' then
      if m.state.PrePerc? then None else Some(m.(state := PrePerc))
    else if ch == '%' then
      Some(m.(state := Chars, out := m.out + "%"))
    else if m.args == [] then None
    else
      var t := FieldText(ch, m.args[0], m.width, m.flag);
      if t.None? then None else Some(m.(state := Chars, out := m.out + t.value, args := m.args[1..]))
  }

  function Run(m: Machine, fmt: string): Option<Machine>
    decreases |fmt|
  {
    if fmt == "" then Some(m)
    else if Step(m, fmt[0]).None? then None
    else Run(Step(m, fmt[0]).value, fmt[1..])
  }

  /** The text stays shorter than n for as long as the machine runs. */
  predicate Room(m: Machine, fmt: string, n: nat)
    decreases |fmt|
  {
    |m.out| < n && (fmt != "" && Step(m, fmt[0]).Some? ==> Room(Step(m, fmt[0]).value, fmt[1..], n))
  }

  /** The conversion branches. */
  method PutField(buf: array<char>, idx: nat, kind: char, arg: Arg, width: u16, flag: char) returns (r: Option<nat>)
    requires FitsAt(FieldText(kind, arg, width, flag), idx, buf.Length)
    modifies buf
    ensures Written(old(buf[..]), buf[..], idx, FieldText(kind, arg, width, flag), r)
  {
    if kind == 'd' || kind == 'i' {
      if arg.word >= 0x8000_0000 {
        r := NumFmt(0x1_0000_0000 - arg.word, buf, idx, 10, width, '-', flag);
      } else {
        r := NumFmt(arg.word, buf, idx, 10, width, '\0', flag);
      }
    } else if kind == 'x' || kind == 'X' {
      r := NumFmt(arg.word, buf, idx, 16, width, '\0', flag);
    } else if kind == 'c' {
      PutText(buf, idx, [(arg.word % 0x100) as char]);
      r := Some(1);
    } else if kind == 's' {
      PutText(buf, idx, arg.text);
      r := Some(|arg.text|);
    } else {
      r := None;
    }
  }

  /** The loop body, on the variables in `m` but for the text, which is in the buffer. */
  method OneChar(buf: array<char>, ch: char, m: Machine) returns (r: Option<Machine>)
    requires |m.out| < buf.Length && buf[..|m.out|] == m.out
    requires Step(m, ch).Some? ==> |Step(m, ch).value.out| <= buf.Length
    modifies buf
    ensures r == Step(m, ch)
    ensures r.Some? ==> |r.value.out| >= |m.out| && buf[..|r.value.out|] == r.value.out
    ensures OnlyBetween(old(buf[..]), buf[..], 0, if r.Some? then |r.value.out| else |m.out|)
  {
    ghost var before := buf[..];
    var idx := |m.out|;
    if m.state.Chars? {
      if ch == '%' {
        r := Some(m.(state := PreFlag, width := 0, flag := ' '));
      } else {
        buf[idx] := ch;
        r := Some(m.(out := m.out + [ch]));
      }
    } else if IsFlag(ch) {
      r := if m.state.PreFlag? then Some(m.(flag := ch, state := PreWidth)) else None;
    } else if '0' <= ch <= '9' {
      r := if m.state.PrePerc? then None else Some(m.(width := (m.width * 10 + (ch as int - '0' as int)) % 0x1_0000));
    } else if ch == '.' {
      r := if m.state.PrePerc? then None else Some(m.(state := PrePerc));
    } else if ch == '%' {
      buf[idx] := '%';
      r := Some(m.(state := Chars, out := m.out + "%"));
    } else if m.args == [] {
      r := None;
    } else {
      var n := PutField(buf, idx, ch, m.args[0], m.width, m.flag);
      if n.None? { return None; }
      assert buf[..idx] == before[..idx];
      var t := buf[idx..idx + n.value];
      r := Some(m.(state := Chars, out := m.out + t, args := m.args[1..]));
    }
  }

  /** vsprintf: the text the machine prints, and a terminator; the length is what is returned. */
  method Vsprintf(buf: array<char>, fmt: string, args: seq<Arg>) returns (r: Option<u16>)
    requires Room(Start(args), fmt, buf.Length) && buf.Length <= 0x1_0000
    modifies buf
    ensures var m := Run(Start(args), fmt);
      && (m.None? ==> r.None?)
      && (m.Some? ==>
        && r == Some(|m.value.out|) && |m.value.out| < buf.Length && buf[..|m.value.out|] == m.value.out
        && buf[|m.value.out|] == '\0' && OnlyBetween(old(buf[..]), buf[..], 0, |m.value.out| + 1))
  {
    var m, p: nat := Start(args), 0;
    assert fmt[0..] == fmt;
    while p < |fmt|
      invariant p <= |fmt| && Run(m, fmt[p..]) == Run(Start(args), fmt) && Room(m, fmt[p..], buf.Length)
      invariant buf[..|m.out|] == m.out && OnlyBetween(old(buf[..]), buf[..], 0, |m.out|)
    {
      ghost var rest := fmt[p..];
      assert rest[0] == fmt[p] && rest[1..] == fmt[p + 1..];
      assert Step(m, fmt[p]).Some? ==> Room(Step(m, fmt[p]).value, fmt[p + 1..], buf.Length);
      var next := OneChar(buf, fmt[p], m);
      if next.None? { return None; }
      m, p := next.value, p + 1;
    }
    assert fmt[p..] == "";
    buf[|m.out|] := '\0';
    r := Some(|m.out|);
  }

  // ---------- What format strings mean ----------

  /** A format string in pieces; `width` is the digits as written. */
  datatype Piece = Literal(c: char) | Percent | Field(flag: Option<char>, width: string, kind: char)

  predicate Decimal(s: string) {
    forall k :: 0 <= k < |s| ==> '0' <= s[k] <= '9'
  }

  predicate IsKind(ch: char) {
    ch == 'd' || ch == 'i' || ch == 'x' || ch == 'X' || ch == 'c' || ch == 's'
  }

  predicate Proper(p: Piece) {
    match p
    case Literal(c) => c != '%'
    case Percent => true
    case Field(flag, width, kind) => (flag.Some? ==> IsFlag(flag.value)) && Decimal(width) && IsKind(kind)
  }

  function Spelling(p: Piece): string {
    match p
    case Literal(c) => [c]
    case Percent => "%%"
    case Field(flag, width, kind) => "%" + (if flag.Some? then [flag.value] else "") + width + [kind]
  }

  function Spell(ps: seq<Piece>): string {
    if ps == [] then "" else Spelling(ps[0]) + Spell(ps[1..])
  }

  /** The width is a decimal number, in 16 bits. */
  function WidthOf(w: string): u16
    requires Decimal(w)
  {
    Value(w, |w|, 10) % 0x1_0000
  }

  /** What the pieces print, each by itself; None if one cannot. */
  function Meaning(ps: seq<Piece>, args: seq<Arg>): Option<string>
    requires forall k :: 0 <= k < |ps| ==> Proper(ps[k])
  {
    if ps == [] then Some("")
    else if Printable(ps[0], args).None? then None
    else Before(Printable(ps[0], args).value, Meaning(ps[1..], ArgsAfter(ps[0], args)))
  }

  /** A field uses up an argument. */
  function ArgsAfter(p: Piece, args: seq<Arg>): seq<Arg> {
    if p.Field? && args != [] then args[1..] else args
  }

  function Printable(p: Piece, args: seq<Arg>): Option<string>
    requires Proper(p)
  {
    if p.Field? && args == [] then None else PieceText(p, args)
  }

  function PieceText(p: Piece, args: seq<Arg>): Option<string>
    requires Proper(p) && (p.Field? ==> args != [])
  {
    match p
    case Literal(c) => Some([c])
    case Percent => Some("%")
    case Field(flag, width, kind) => FieldText(kind, args[0], WidthOf(width), FlagOf(p))
  }

  /** A space when the format names none. */
  function FlagOf(p: Piece): char {
    if p.Field? && p.flag.Some? then p.flag.value else ' '
  }

  function Before(s: string, t: Option<string>): Option<string> {
    if t.None? then None else Some(s + t.value)
  }

  lemma {:induction false} RunAppend(m: Machine, a: string, b: string)
    ensures Run(m, a + b) == if Run(m, a).None? then None else Run(Run(m, a).value, b)
    decreases |a|
  {
    if a == "" {
      assert a + b == b;
    } else {
      assert (a + b)[0] == a[0] && (a + b)[1..] == a[1..] + b;
      if Step(m, a[0]).Some? { RunAppend(Step(m, a[0]).value, a[1..], b); }
    }
  }

  lemma RunOne(m: Machine, ch: char)
    ensures Run(m, [ch]) == Step(m, ch)
  {
    if Step(m, ch).Some? { assert Run(Step(m, ch).value, [ch][1..]) == Step(m, ch); }
  }

  /** The machine reads the width as a decimal number. */
  lemma {:induction false} RunWidth(m: Machine, w: string)
    requires Decimal(w) && m.width == 0 && (m.state.PreFlag? || m.state.PreWidth?)
    ensures Run(m, w) == Some(m.(width := WidthOf(w)))
    decreases |w|
  {
    if w != "" {
      var v, c := w[..|w| - 1], w[|w| - 1];
      assert w == v + [c];
      RunWidth(m, v);
      RunAppend(m, v, [c]);
      RunOne(Run(m, v).value, c);
      ValueAppend(v, c, 10);
      NextWidth(Value(v, |v|, 10), c as int - '0' as int);
    }
  }

  lemma NextWidth(x: nat, d: nat)
    ensures (x % 0x1_0000 * 10 + d) % 0x1_0000 == (Times(10, x) + d) % 0x1_0000
  {
    var q, r := x / 0x1_0000, x % 0x1_0000;
    assert Times(10, x) + d == (r * 10 + d) + 0x1_0000 * (10 * q);
    DropMultiple(r * 10 + d, 10 * q);
  }

  lemma DropMultiple(a: nat, q: nat)
    ensures (a + 0x1_0000 * q) % 0x1_0000 == a % 0x1_0000
  {
  }

  /** The machine prints a piece and is ready for the next one. */
  lemma RunPiece(m: Machine, p: Piece)
    requires m.state.Chars? && Proper(p)
    ensures var r := Run(m, Spelling(p));
      && (r.None? <==> Printable(p, m.args).None?)
      && (r.Some? ==>
        && r.value.state.Chars? && r.value.out == m.out + Printable(p, m.args).value
        && r.value.args == ArgsAfter(p, m.args))
  {
    if p.Literal? {
      RunOne(m, p.c);
    } else if p.Percent? {
      assert "%%" == "%" + "%";
      RunAppend(m, "%", "%");
      RunOne(m, '%');
      RunOne(m.(state := PreFlag, width := 0, flag := ' '), '%');
    } else {
      RunField(m, p);
    }
  }

  lemma RunField(m: Machine, p: Piece)
    requires m.state.Chars? && p.Field? && Proper(p)
    ensures Run(m, Spelling(p)) ==
      if Printable(p, m.args).None? then None
      else Some(m.(flag := FlagOf(p), width := WidthOf(p.width),
                   out := m.out + Printable(p, m.args).value, args := ArgsAfter(p, m.args)))
  {
    var f := if p.flag.Some? then [p.flag.value] else "";
    var m1 := m.(state := PreFlag, width := 0, flag := ' ');
    var m2 := if p.flag.Some? then m1.(flag := p.flag.value, state := PreWidth) else m1;
    assert Spelling(p) == "%" + (f + (p.width + [p.kind]));
    RunAppend(m, "%", f + (p.width + [p.kind]));
    RunOne(m, '%');
    RunAppend(m1, f, p.width + [p.kind]);
    if p.flag.Some? { RunOne(m1, p.flag.value); }
    RunAppend(m2, p.width, [p.kind]);
    RunWidth(m2, p.width);
    RunOne(m2.(width := WidthOf(p.width)), p.kind);
  }

  /**
   * vsprintf refines the meaning of its format: the pieces' texts in order,
   * whatever width and flag an earlier piece left behind.
   */
  lemma {:induction false} RunsMeaning(m: Machine, ps: seq<Piece>)
    requires m.state.Chars? && forall k :: 0 <= k < |ps| ==> Proper(ps[k])
    ensures Extends(m.out, Run(m, Spell(ps)), Meaning(ps, m.args))
    decreases |ps|
  {
    if ps != [] {
      var p, rest := ps[0], ps[1..];
      assert Spell(ps) == Spelling(p) + Spell(rest);
      if Printable(p, m.args).None? {
        RunStuck(m, p, Spell(rest));
      } else {
        var x := Printable(p, m.args).value;
        assert Meaning(ps, m.args) == Before(x, Meaning(rest, ArgsAfter(p, m.args)));
        var m' := RunThen(m, p, Spell(rest));
        RunsMeaning(m', rest);
        ExtendsMore(m.out, x, Run(m', Spell(rest)), Meaning(rest, m'.args));
      }
    }
  }

  /** The run succeeds exactly when there is a text, which it adds to `out`. */
  ghost predicate Extends(out: string, r: Option<Machine>, t: Option<string>) {
    (r.Some? <==> t.Some?) && (r.Some? ==> r.value.out == out + t.value)
  }

  lemma ExtendsMore(out: string, x: string, r: Option<Machine>, t: Option<string>)
    requires Extends(out + x, r, t)
    ensures Extends(out, r, Before(x, t))
  {
    if t.Some? { assert (out + x) + t.value == out + (x + t.value); }
  }

  lemma RunStuck(m: Machine, p: Piece, b: string)
    requires m.state.Chars? && Proper(p) && Printable(p, m.args).None?
    ensures Run(m, Spelling(p) + b).None?
  {
    RunPiece(m, p);
    RunAppend(m, Spelling(p), b);
  }

  lemma RunThen(m: Machine, p: Piece, b: string) returns (m': Machine)
    requires m.state.Chars? && Proper(p) && Printable(p, m.args).Some?
    ensures Run(m, Spelling(p) + b) == Run(m', b) && m'.state.Chars?
    ensures m'.out == m.out + Printable(p, m.args).value && m'.args == ArgsAfter(p, m.args)
  {
    RunPiece(m, p);
    RunAppend(m, Spelling(p), b);
    m' := Run(m, Spelling(p)).value;
  }

  /** What sprintf prints. */
  function Printed(fmt: string, args: seq<Arg>): Option<string> {
    if Run(Start(args), fmt).None? then None else Some(Run(Start(args), fmt).value.out)
  }

  lemma PrintsMeaning(ps: seq<Piece>, args: seq<Arg>)
    requires forall k :: 0 <= k < |ps| ==> Proper(ps[k])
    ensures Printed(Spell(ps), args) == Meaning(ps, args)
  {
    RunsMeaning(Start(args), ps);
    FromNothing(Run(Start(args), Spell(ps)), Meaning(ps, args));
  }

  lemma FromNothing(r: Option<Machine>, t: Option<string>)
    requires Extends("", r, t)
    ensures (if r.None? then None else Some(r.value.out)) == t
  {
    if t.Some? { assert "" + t.value == t.value; }
  }

  // ---------- str2num inverts the printer ----------

  lemma {:induction false} DigitsDecimal(n: nat)
    ensures Decimal(Digits(n, 10))
  {
    if n >= 10 { DigitsDecimal(Quot(n, 10)); }
  }

  /** A numeral is read back, after any number of zeros if it is hexadecimal. */
  lemma ParsedDecimal(n: u32)
    ensures Parsed(Digits(n, 10)) == n
  {
    DigitsValue(n, 10);
    DigitsDecimal(n);
  }

  lemma ParsedHex(n: u32, z: nat)
    ensures Parsed("0x" + (Repeat('0', z) + Digits(n, 16))) == n
  {
    DigitsValue(n, 16);
    ParsedZeros(z, Digits(n, 16));
    ParsedPrefixed(Repeat('0', z) + Digits(n, 16));
  }

  lemma ParsedZeros(z: nat, s: string)
    requires AllDigits(s)
    ensures ParsedAs(Repeat('0', z) + s, 16) == ParsedAs(s, 16)
  {
    LeadingZeros(z, s, |s|, 16);
  }

  lemma ParsedPrefixed(t: string)
    ensures Parsed("0x" + t) == ParsedAs(t, 16)
  {
    assert ("0x" + t)[2..] == t;
  }

  lemma ParsedSign(s: string)
    requires s != "" && s[0] == '-'
    ensures Parsed(s) == 0
  {
    assert DigitValue(s[0]).None?;
  }

  lemma OnlyField(p: Piece, arg: Arg)
    requires p.Field? && Proper(p)
    ensures Printed(Spelling(p), [arg]) == PieceText(p, [arg])
  {
    RunField(Start([arg]), p);
    if PieceText(p, [arg]).Some? { assert "" + PieceText(p, [arg]).value == PieceText(p, [arg]).value; }
  }

  /** Reading back what "%d" printed gives the word exactly when it is not negative. */
  lemma DecimalRoundTrip(arg: Arg)
    ensures Printed("%d", [arg]).Some?
    ensures Parsed(Printed("%d", [arg]).value) == arg.word <==> arg.word < 0x8000_0000
  {
    assert Spelling(Field(None, "", 'd')) == "%d";
    OnlyField(Field(None, "", 'd'), arg);
    DecimalField(arg);
    if arg.word < 0x8000_0000 {
      ParsedDecimal(arg.word);
    } else {
      ParsedSign(Core(0x1_0000_0000 - arg.word, 10, '-'));
    }
  }

  lemma DecimalField(arg: Arg)
    ensures PieceText(Field(None, "", 'd'), [arg]) ==
      Some(if arg.word < 0x8000_0000 then Digits(arg.word, 10) else Core(0x1_0000_0000 - arg.word, 10, '-'))
  {
    assert Core(arg.word, 10, '\0') == Digits(arg.word, 10);
  }

  /** "0x" before a piece. */
  lemma AfterPrefix(p: Piece, arg: Arg)
    requires p.Field? && Proper(p)
    ensures Printed("0x" + Spelling(p), [arg]) == Before("0x", PieceText(p, [arg]))
  {
    PrintsMeaning([Literal('0'), Literal('x'), p], [arg]);
    PrefixSpelled(p);
    MeaningPrefixed(p, arg);
    BeforeTwice(PieceText(p, [arg]));
  }

  lemma BeforeTwice(t: Option<string>)
    ensures Before("0", Before("x", t)) == Before("0x", t)
  {
    if t.Some? { assert "0" + ("x" + t.value) == "0x" + t.value; }
  }

  lemma PrefixSpelled(p: Piece)
    ensures Spell([Literal('0'), Literal('x'), p]) == "0x" + Spelling(p)
  {
    var x, zero := [Literal('x'), p], [Literal('0'), Literal('x'), p];
    assert x[1..] == [p] && zero[1..] == x && [p][1..] == [];
    assert Spell([p]) == Spelling(p) + "" == Spelling(p);
    assert Spell(x) == "x" + Spelling(p);
    assert "0" + ("x" + Spelling(p)) == "0x" + Spelling(p);
  }

  lemma MeaningPrefixed(p: Piece, arg: Arg)
    requires p.Field? && Proper(p)
    ensures Meaning([Literal('0'), Literal('x'), p], [arg]) == Before("0", Before("x", PieceText(p, [arg])))
  {
    var x, zero := [Literal('x'), p], [Literal('0'), Literal('x'), p];
    assert x[1..] == [p] && zero[1..] == x;
    MeaningAlone(p, arg);
    assert Meaning(x, [arg]) == Before("x", PieceText(p, [arg]));
  }

  lemma MeaningAlone(p: Piece, arg: Arg)
    requires Proper(p)
    ensures Meaning([p], [arg]) == PieceText(p, [arg])
  {
    assert [p][1..] == [];
    if PieceText(p, [arg]).Some? { assert PieceText(p, [arg]).value + "" == PieceText(p, [arg]).value; }
  }

  /** "0x%x", and "0x%#Nx" for the digits N of any width, are read back as the word printed. */
  lemma HexRoundTrip(arg: Arg, flag: Option<char>, width: string)
    requires Decimal(width) && (flag == Some('#') || (flag == None && width == ""))
    ensures var fmt := "0x%" + (if flag.Some? then "#" else "") + width + "x";
      Printed(fmt, [arg]).Some? && Parsed(Printed(fmt, [arg]).value) == arg.word
  {
    var p := Field(flag, width, 'x');
    assert "0x%" + (if flag.Some? then "#" else "") + width + "x" == "0x" + Spelling(p);
    AfterPrefix(p, arg);
    var z := HexField(arg, flag, width);
    ParsedHex(arg.word, z);
  }

  lemma HexField(arg: Arg, flag: Option<char>, width: string) returns (z: nat)
    requires Decimal(width) && (flag == Some('#') || (flag == None && width == ""))
    ensures PieceText(Field(flag, width, 'x'), [arg]) == Some(Repeat('0', z) + Digits(arg.word, 16))
  {
    var s := Digits(arg.word, 16);
    DigitsValue(arg.word, 16);
    assert Core(arg.word, 16, '\0') == s;
    z := if |s| >= WidthOf(width) then 0 else WidthOf(width) - |s|;
    assert z == 0 ==> Repeat('0', z) + s == s;
  }

  // ---------- What a field looks like ----------

  /** The field is as wide as asked for, or as its core. Zeros or spaces stand before the core, or spaces behind
      it for the flag '+'; any other flag fails when there is something to fill. */
  lemma FieldShape(core: string, width: nat, flag: char)
    ensures Padded(core, width, flag).None? <==> |core| < width && flag != '#' && flag != ' ' && flag != '+'
    ensures |core| >= width ==> Padded(core, width, flag) == Some(core)
    ensures |core| < width && Padded(core, width, flag).Some? ==>
      var t, n := Padded(core, width, flag).value, width - |core|;
      && |t| == width
      && (flag == '#' ==> t[n..] == core && forall k :: 0 <= k < n ==> t[k] == '0')
      && (flag == ' ' ==> t[n..] == core && forall k :: 0 <= k < n ==> t[k] == ' ')
      && (flag == '+' ==> t[..|core|] == core && forall k :: |core| <= k < width ==> t[k] == ' ')
  {
  }

  /** "%d" of a negative number is a minus sign and the digits of its magnitude. */
  lemma NegativeReadBack(arg: Arg)
    requires arg.word >= 0x8000_0000
    ensures var t := Printed("%d", [arg]);
      t.Some? && |t.value| > 1 && t.value[0] == '-' && Parsed(t.value[1..]) == 0x1_0000_0000 - arg.word
  {
    var m: u32 := 0x1_0000_0000 - arg.word;
    assert Spelling(Field(None, "", 'd')) == "%d";
    OnlyField(Field(None, "", 'd'), arg);
    DecimalField(arg);
    WordDigits(m, 10);
    assert Core(m, 10, '-')[1..] == Digits(m, 10);
    ParsedDecimal(m);
  }

  /** The sixteen digits: capital letters are written, and either case is read. */
  lemma SixteenDigits(d: nat)
    requires d < 16
    ensures DigitChar(d) == "0123456789ABCDEF"[d]
    ensures DigitValue("0123456789ABCDEF"[d]) == DigitValue("0123456789abcdef"[d]) == Some(d)
  {
  }

  lemma NoOtherDigit(ch: char)
    ensures DigitValue(ch).Some? <==> ch in "0123456789ABCDEF" || ch in "0123456789abcdef"
  {
    if DigitValue(ch).Some? {
      var d := DigitValue(ch).value;
      assert ch == "0123456789ABCDEF"[d] || ch == "0123456789abcdef"[d];
    }
  }

  /** A field without a flag is right-aligned with spaces: the flag ' ' changes nothing. */
  lemma SpaceIsDefault(width: string, kind: char, arg: Arg)
    requires Decimal(width) && IsKind(kind)
    ensures Printed("%" + width + [kind], [arg]) == Printed("% " + width + [kind], [arg])
  {
    assert Spelling(Field(None, width, kind)) == "%" + width + [kind];
    assert Spelling(Field(Some(' '), width, kind)) == "% " + width + [kind];
    OnlyField(Field(None, width, kind), arg);
    OnlyField(Field(Some(' '), width, kind), arg);
  }

  /** The conversions that are not numbers, and the spellings that mean the same. */
  lemma OtherConversions(arg: Arg, width: nat, flag: char)
    ensures Printed("%s", [arg]) == Some(arg.text)
    ensures Printed("%c", [arg]).Some? && |Printed("%c", [arg]).value| == 1
    ensures Printed("%c", [arg]).value[0] as int == arg.word % 0x100
    ensures FieldText('i', arg, width, flag) == FieldText('d', arg, width, flag)
    ensures FieldText('X', arg, width, flag) == FieldText('x', arg, width, flag)
    ensures Printed("%%", []) == Some("%")
  {
    var ps := [Percent];
    assert ps[1..] == [] && Spell(ps) == "%%" + "" == "%%";
    assert Meaning(ps, []) == Some("%" + "") && "%" + "" == "%";
    PrintsMeaning(ps, []);
    assert Spelling(Field(None, "", 's')) == "%s" && Spelling(Field(None, "", 'c')) == "%c";
    OnlyField(Field(None, "", 's'), arg);
    OnlyField(Field(None, "", 'c'), arg);
  }
}
