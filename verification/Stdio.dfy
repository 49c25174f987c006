/** Printing and parsing numbers (lolibc/stdio.c:17-75, 97-119). Numbers are 64 bits wide. */
module Stdio {
  import opened Bits
  import opened Sequences
  import opened Strings

  const WORD := 0x1_0000_0000_0000_0000
  const SPACE: byte := 32
  const ZERO: byte := 48

  /** _itoa_table: "0123456789ABCDEF". */
  const ITOA_TABLE: seq<byte> := [48, 49, 50, 51, 52, 53, 54, 55, 56, 57, 65, 66, 67, 68, 69, 70]

  /** The radices that do not panic. */
  predicate Radix(radix: nat) {
    radix == 10 || radix == 16
  }

  function ToUpper(c: byte): byte {
    if 97 <= c <= 122 then c - 97 + 65 else c
  }

  /** The digits of a number, most significant first; none for zero. */
  function Digits(v: nat, radix: nat): (r: seq<byte>)
    requires Radix(radix)
  {
    if v == 0 then [] else Digits(v / radix, radix) + [ITOA_TABLE[v % radix]]
  }

  /** How a number is written. */
  function Numeral(v: nat, radix: nat): (r: seq<byte>)
    requires Radix(radix)
  {
    if v == 0 then [ZERO] else Digits(v, radix)
  }

  /** The value of a character as a digit, if it is one. */
  predicate IsDigit(c: byte, radix: nat)
    requires Radix(radix)
  {
    48 <= c < 58 || (radix == 16 && (65 <= c < 71 || 97 <= c < 103))
  }

  function DigitValue(c: byte): nat
    requires IsDigit(c, 16)
  {
    if c < 58 then c - 48 else if c < 71 then c - 55 else c - 87
  }

  predicate AllDigits(s: seq<byte>, radix: nat)
    requires Radix(radix)
  {
    forall i | 0 <= i < |s| :: IsDigit(s[i], radix)
  }

  /** What a string of digits is worth. */
  function Value(s: seq<byte>, radix: nat): (r: nat)
    requires Radix(radix) && AllDigits(s, radix)
  {
    if s == [] then 0 else Value(s[..|s| - 1], radix) * radix + DigitValue(s[|s| - 1])
  }

  /** As numbers are written: upper case, no superfluous zero in front. */
  predicate Canonical(s: seq<byte>, radix: nat)
    requires Radix(radix)
  {
    && s != [] && AllDigits(s, radix) && (forall i | 0 <= i < |s| :: s[i] == ToUpper(s[i]))
    && (s[0] == ZERO ==> |s| == 1)
  }

  /** get_itoa_table_index. */
  method GetItoaTableIndex(ch: byte, len: nat) returns (r: int)
    requires Radix(len)
    ensures -1 <= r < len && (r >= 0 <==> ch in ITOA_TABLE[..len]) && (r >= 0 ==> ITOA_TABLE[r] == ch)
  {
    var maxLen := if len < |ITOA_TABLE| then len else |ITOA_TABLE|;
    var i := 0;
    while i < maxLen
      invariant 0 <= i <= maxLen && ch !in ITOA_TABLE[..i]
    {
      if ch == ITOA_TABLE[i] { return i; }
      i := i + 1;
    }
    return -1;
  }

  lemma TableDigits(c: byte, radix: nat)
    requires Radix(radix)
    ensures IsDigit(c, radix) <==> ToUpper(c) in ITOA_TABLE[..radix]
    ensures forall i | 0 <= i < radix && ITOA_TABLE[i] == ToUpper(c) :: IsDigit(c, radix) && DigitValue(c) == i
  {
    if IsDigit(c, radix) {
      assert ITOA_TABLE[..radix][DigitValue(c)] == ToUpper(c);
    }
  }

  /** The loop that turns the digits round, between two cursors. */
  method ReverseInPlace(s: array<byte>, n: nat)
    requires n <= s.Length
    modifies s
    ensures s[..n] == Reverse(old(s[..n])) && s[n..] == old(s[n..])
  {
    var pre, last := 0, n - 1;
    while last > pre
      invariant 0 <= pre && pre + last == n - 1
      invariant pre <= last + 2
      invariant forall k | 0 <= k < n :: s[k] == if k < pre || k > last then old(s[n - 1 - k]) else old(s[k])
      invariant s[n..] == old(s[n..])
      decreases last - pre
    {
      var tmp := s[pre];
      s[pre] := s[last];
      s[last] := tmp;
      pre, last := pre + 1, last - 1;
    }
    ghost var was := old(s[..n]);
    forall k | 0 <= k < n ensures s[..n][k] == Reverse(was)[k] {
      ReverseAt(was, k);
      assert was[n - 1 - k] == old(s[n - 1 - k]);
    }
  }

  lemma FirstDigit(v: nat, radix: nat, done: seq<byte>)
    requires Radix(radix)
    ensures done == [] ==> Digits(v, radix) + Reverse(done) == Digits(v, radix)
    ensures v == 0 ==> Digits(v, radix) == [] && Digits(v, radix) + Reverse(done) == Reverse(done)
  {
  }

  /** One turn of the digit loop. */
  lemma NextDigit(value: nat, v: nat, radix: nat, done: seq<byte>, q: nat, c: byte)
    requires Radix(radix) && Digits(value, radix) == Digits(v, radix) + Reverse(done)
    requires Digits(v, radix) == Digits(q, radix) + [c]
    ensures Digits(value, radix) == Digits(q, radix) + Reverse(done + [c])
    ensures |done| < |Digits(value, radix)|
  {
    hide Digits;
    hide Reverse;
    ReverseSnoc(done, c);
    Regroup(Digits(q, radix), [c], Reverse(done));
  }

  lemma DigitsStep(v: nat, radix: nat)
    requires Radix(radix) && v > 0
    ensures 0 <= v / radix < v && 0 <= v % radix < radix
    ensures Digits(v, radix) == Digits(v / radix, radix) + [ITOA_TABLE[v % radix]]
  {
  }

  /** The digit loop: the digits, least significant first. */
  method PutDigits(value: nat, string_: array<byte>, radix: nat) returns (dst: nat)
    requires Radix(radix) && |Digits(value, radix)| < string_.Length
    modifies string_
    ensures dst == |Digits(value, radix)| && Reverse(string_[..dst]) == Digits(value, radix)
    ensures string_[dst..] == old(string_[dst..])
  {
    hide Digits;
    hide Reverse;
    var v: nat := value;
    dst := 0;
    FirstDigit(value, radix, string_[..0]);
    while v != 0
      invariant dst < string_.Length
      invariant Digits(value, radix) == Digits(v, radix) + Reverse(string_[..dst])
      invariant string_[dst..] == old(string_[dst..])
      decreases v
    {
      DigitsStep(v, radix);
      ghost var done, rest := string_[..dst], string_[dst..];
      var c := ITOA_TABLE[v % radix];
      NextDigit(value, v, radix, done, v / radix, c);
      v := v / radix;
      string_[dst] := c;
      assert string_[..dst + 1] == done + [c];
      assert string_[dst + 1..] == rest[1..];
      dst := dst + 1;
    }
    FirstDigit(0, radix, string_[..dst]);
  }

  /** _uitoa: the numeral, with its NUL; the result counts both. */
  method UItoA(value: nat, string_: array<byte>, radix: nat) returns (n: nat)
    requires Radix(radix) && value < WORD && |Numeral(value, radix)| < string_.Length
    modifies string_
    ensures n == |Numeral(value, radix)| + 1
    ensures string_[..n] == Numeral(value, radix) + [0] && string_[n..] == old(string_[n..])
  {
    hide Digits;
    hide Reverse;
    if value == 0 {
      string_[0] := ZERO;
      string_[1] := 0;
      return 2;
    }
    var dst := PutDigits(value, string_, radix);
    ReverseInPlace(string_, dst);
    ghost var digits, rest := string_[..dst], string_[dst..];
    string_[dst] := 0;
    n := dst + 1;
    assert string_[..n] == digits + [0] && string_[n..] == rest[1..];
  }

  /** The longest run of digits at the front of a string. */
  function DigitRun(s: seq<byte>, radix: nat): (k: nat)
    requires Radix(radix)
    ensures k <= |s| && AllDigits(s[..k], radix) && (k < |s| ==> !IsDigit(s[k], radix))
  {
    if s == [] || !IsDigit(s[0], radix) then 0
    else
      var k := 1 + DigitRun(s[1..], radix);
      assert forall i | 1 <= i < k :: s[..k][i] == s[1..][..k - 1][i - 1];
      k
  }

  lemma {:induction false} DigitRunIs(s: seq<byte>, radix: nat, k: nat)
    requires Radix(radix) && k <= |s| && AllDigits(s[..k], radix) && (k < |s| ==> !IsDigit(s[k], radix))
    ensures DigitRun(s, radix) == k
  {
    if k > 0 {
      assert IsDigit(s[..k][0], radix);
      var t := s[1..][..k - 1];
      forall i | 0 <= i < |t| ensures IsDigit(t[i], radix) {
        assert t[i] == s[..k][i + 1];
      }
      DigitRunIs(s[1..], radix, k - 1);
    }
  }

  /** _uatoi: reads all the digits in front, whatever their case; the value wraps at 64 bits. */
  method UAtoI(string_: seq<byte>, radix: nat) returns (n: nat, result: nat)
    requires Radix(radix) && 0 in string_
    ensures n == DigitRun(string_, radix) && result == Value(string_[..n], radix) % WORD
  {
    var s, value := 0, 0;
    TableDigits(string_[0], radix);
    var bitValue := GetItoaTableIndex(ToUpper(string_[0]), radix);
    while bitValue >= 0
      invariant s < |string_| && AllDigits(string_[..s], radix)
      invariant value == Value(string_[..s], radix) % WORD
      invariant -1 <= bitValue < radix && (bitValue >= 0 <==> IsDigit(string_[s], radix))
      invariant bitValue >= 0 ==> bitValue == DigitValue(string_[s])
      decreases |string_| - s
    {
      assert string_[..s + 1][..s] == string_[..s];
      NotLast(string_, s);
      WrapStep(Value(string_[..s], radix), radix, bitValue);
      value := value * radix % WORD;
      value := (value + bitValue) % WORD;
      s := s + 1;
      TableDigits(string_[s], radix);
      bitValue := GetItoaTableIndex(ToUpper(string_[s]), radix);
    }
    DigitRunIs(string_, radix, s);
    n, result := s, value;
  }

  lemma WrapStep(v: nat, radix: nat, d: nat)
    requires Radix(radix)
    ensures (v % WORD * radix % WORD + d) % WORD == (v * radix + d) % WORD
  {
    var r, q := v % WORD, v / WORD;
    if radix == 10 {
      ModShift(r * 10 + d, 10 * q);
      ModShift(r * 10 % WORD + d, r * 10 / WORD);
    } else {
      ModShift(r * 16 + d, 16 * q);
      ModShift(r * 16 % WORD + d, r * 16 / WORD);
    }
  }

  lemma ModShift(a: nat, k: nat)
    ensures (a + WORD * k) % WORD == a % WORD
  {
  }

  /** The NUL is no digit, so the string goes on after a digit. */
  lemma NotLast(s: seq<byte>, k: nat)
    requires 0 in s && k < |s| && AllDigits(s[..k], 16) && IsDigit(s[k], 16)
    ensures k + 1 < |s|
  {
    forall i | 0 <= i < k ensures IsDigit(s[i], 16) {
      assert s[i] == s[..k][i];
    }
  }

  // Printing and parsing undo each other.

  lemma {:induction false} DigitsMean(v: nat, radix: nat)
    requires Radix(radix)
    ensures var s := Digits(v, radix);
            && AllDigits(s, radix) && Value(s, radix) == v && (forall i | 0 <= i < |s| :: s[i] == ToUpper(s[i]))
            && (v > 0 ==> s != [] && s[0] != ZERO)
    decreases v
  {
    if v > 0 {
      var s, c := Digits(v / radix, radix), ITOA_TABLE[v % radix];
      DigitsMean(v / radix, radix);
      assert (s + [c])[..|s|] == s;
      TableEntry(v % radix, radix);
    }
  }

  lemma TableEntry(d: nat, radix: nat)
    requires Radix(radix) && d < radix
    ensures var c := ITOA_TABLE[d];
            IsDigit(c, radix) && DigitValue(c) == d && ToUpper(c) == c && (d > 0 ==> c != ZERO)
  {
    if d < 10 {
      assert ITOA_TABLE[d] == 48 + d;
    } else {
      assert ITOA_TABLE[d] == 55 + d;
    }
  }

  /** A numeral is canonical and worth the number it was made from. */
  lemma NumeralMeans(v: nat, radix: nat)
    requires Radix(radix)
    ensures Canonical(Numeral(v, radix), radix) && Value(Numeral(v, radix), radix) == v
  {
    DigitsMean(v, radix);
    if v == 0 {
      assert [ZERO][..0] == [];
    }
  }

  /** Parsing what was printed gives the number back and stops at the NUL. */
  lemma PrintParse(v: nat, radix: nat, rest: seq<byte>)
    requires Radix(radix) && v < WORD
    ensures var s := Numeral(v, radix) + [0] + rest;
            var n := DigitRun(s, radix);
            n == |Numeral(v, radix)| && Value(s[..n], radix) % WORD == v
  {
    var d := Numeral(v, radix);
    var s := d + [0] + rest;
    NumeralMeans(v, radix);
    assert s[..|d|] == d;
    DigitRunIs(s, radix, |d|);
  }

  lemma {:induction false} ValueDigits(s: seq<byte>, radix: nat)
    requires Radix(radix) && AllDigits(s, radix) && (forall i | 0 <= i < |s| :: s[i] == ToUpper(s[i]))
    requires s != [] ==> s[0] != ZERO
    ensures Digits(Value(s, radix), radix) == s && (s != [] ==> Value(s, radix) > 0)
    decreases |s|
  {
    hide Digits;
    hide IsDigit;
    hide DigitValue;
    hide ToUpper;
    if s == [] {
      FirstDigit(0, radix, []);
    } else {
      var t, c := s[..|s| - 1], s[|s| - 1];
      ValueDigits(t, radix);
      DigitEntry(c, radix);
      DigitsSnoc(Value(t, radix), DigitValue(c), radix);
      assert t + [c] == s;
    }
  }

  lemma DigitEntry(c: byte, radix: nat)
    requires Radix(radix) && IsDigit(c, radix) && c == ToUpper(c)
    ensures IsDigit(c, 16) && DigitValue(c) < radix && ITOA_TABLE[DigitValue(c)] == c && (DigitValue(c) == 0 <==> c == ZERO)
  {
  }

  /** One more digit behind a number's. */
  lemma DigitsSnoc(v: nat, d: nat, radix: nat)
    requires Radix(radix) && d < radix && (v > 0 || d > 0)
    ensures v * radix + d > 0 && Digits(v * radix + d, radix) == Digits(v, radix) + [ITOA_TABLE[d]]
  {
    hide Digits;
    if radix == 10 {
      DigitsStep(v * 10 + d, 10);
      assert (v * 10 + d) / 10 == v && (v * 10 + d) % 10 == d;
    } else {
      DigitsStep(v * 16 + d, 16);
      assert (v * 16 + d) / 16 == v && (v * 16 + d) % 16 == d;
    }
  }

  /** Printing what was parsed gives a canonical string back. */
  lemma ParsePrint(s: seq<byte>, radix: nat)
    requires Radix(radix) && Canonical(s, radix)
    ensures Numeral(Value(s, radix), radix) == s
  {
    if s[0] == ZERO {
      assert s[..0] == [];
    } else {
      ValueDigits(s, radix);
    }
  }

  function Upper(s: seq<byte>): (r: seq<byte>)
    ensures |r| == |s| && forall i | 0 <= i < |s| :: r[i] == ToUpper(s[i])
  {
    if s == [] then [] else Upper(s[..|s| - 1]) + [ToUpper(s[|s| - 1])]
  }

  /** The case of the letters makes no difference. */
  lemma {:induction false} CaseIgnored(s: seq<byte>, radix: nat)
    requires Radix(radix) && AllDigits(s, radix)
    ensures AllDigits(Upper(s), radix) && Value(Upper(s), radix) == Value(s, radix)
    decreases |s|
  {
    if s != [] {
      CaseIgnored(s[..|s| - 1], radix);
      assert Upper(s)[..|s| - 1] == Upper(s[..|s| - 1]);
    }
  }

  // Padding to a width.

  datatype Flag = Nop | Zero | Left

  function Repeat(c: byte, n: nat): (r: seq<byte>)
    ensures |r| == n && forall i | 0 <= i < n :: r[i] == c
  {
    if n == 0 then [] else Repeat(c, n - 1) + [c]
  }

  /** A string in a field of a given width: blanks or zeros before it, or blanks after it. */
  function Padded(s: seq<byte>, flag: Flag, width: int): seq<byte> {
    var pad := if width > |s| then width - |s| else 0;
    match flag
    case Nop => Repeat(SPACE, pad) + s
    case Zero => Repeat(ZERO, pad) + s
    case Left => s + Repeat(SPACE, pad)
  }

  /** A field is as wide as asked, or as its string; the string stands at its end, or at its start with the left
      flag, and the rest is zeros with the zero flag and blanks otherwise. */
  lemma PaddedMeans(s: seq<byte>, flag: Flag, width: int)
    ensures var r := Padded(s, flag, width);
            && |r| == (if width > |s| then width else |s|)
            && (flag == Left ==> r[..|s|] == s && forall i | |s| <= i < |r| :: r[i] == 32)
            && (flag != Left ==> r[|r| - |s|..] == s && forall i | 0 <= i < |r| - |s| :: r[i] == if flag == Zero then 48 else 32)
  {
    var pad := if width > |s| then width - |s| else 0;
    assert Padded(s, Left, width) == s + Repeat(SPACE, pad);
  }

  /** The padding loop. */
  method PutPadding(dst: array<byte>, at: nat, c: byte, count: nat) returns (end: nat)
    requires at + count <= dst.Length
    modifies dst
    ensures end == at + count
    ensures dst[..end] == old(dst[..at]) + Repeat(c, count) && dst[end..] == old(dst[end..])
  {
    var remain := count;
    end := at;
    while remain > 0
      invariant 0 <= remain && end + remain == at + count
      invariant dst[..end] == old(dst[..at]) + Repeat(c, end - at) && dst[end..] == old(dst[end..])
    {
      ghost var done, rest := dst[..end], dst[end..];
      dst[end] := c;
      assert dst[..end + 1] == done + [c] && dst[end + 1..] == rest[1..];
      remain, end := remain - 1, end + 1;
    }
  }

  lemma PaddedIs(s: seq<byte>, flag: Flag, width: int, pad: nat)
    requires pad == if width > |s| then width - |s| else 0
    ensures Padded(s, flag, width) ==
              if flag == Left then s + Repeat(SPACE, pad) else Repeat(if flag == Zero then ZERO else SPACE, pad) + s
  {
  }

  /** What two writes leave alone, from m on. */
  lemma Behind(before: seq<byte>, middle: seq<byte>, after: seq<byte>, n: nat, m: nat)
    requires |before| == |middle| == |after| && n <= m <= |before|
    requires middle[n..] == before[n..]
    requires after[m..] == middle[m..]
    ensures after[m..] == before[m..]
  {
    assert middle[m..] == middle[n..][m - n..] == before[n..][m - n..] == before[m..];
  }

  /** Padding behind a string overwrites its NUL and nothing behind the padding. */
  lemma AfterPadding(before: seq<byte>, middle: seq<byte>, after: seq<byte>, at: nat, end: nat)
    requires |before| == |middle| == |after| && at <= end < |before|
    requires middle[at] == 0 && middle[at + 1..] == before[at + 1..] && after[end..] == middle[end..]
    ensures end == at ==> after[at] == 0 && after[at + 1..] == before[at + 1..]
    ensures end > at ==> after[end..] == before[end..]
  {
    if end == at {
      assert after[at] == after[at..][0] == middle[at];
      assert after[at + 1..] == after[at..][1..] == middle[at..][1..] == middle[at + 1..];
    } else {
      Behind(before, middle, after, at + 1, end);
    }
  }

  /** copy_fmt_str. The length is handed back. Padding after the string overwrites its NUL, and the byte
      behind the padding is then whatever it was. */
  method CopyFmtStr(dst: array<byte>, buf: seq<byte>, flag: Flag, num: int) returns (len: nat)
    requires 0 in buf && |Padded(CStr(buf), flag, num)| < dst.Length
    modifies dst
    ensures len == |Padded(CStr(buf), flag, num)| && dst[..len] == Padded(CStr(buf), flag, num)
    ensures flag == Left && num > |CStr(buf)| ==> dst[len..] == old(dst[len..])
    ensures flag != Left || num <= |CStr(buf)| ==> dst[len] == 0 && dst[len + 1..] == old(dst[len + 1..])
  {
    hide Repeat;
    hide Padded;
    hide CStr;
    var bufLen := StrLen(buf);
    len := if bufLen > num then bufLen else num;
    var remain: nat := len - bufLen;
    PaddedIs(CStr(buf), flag, num, remain);
    if flag != Left {
      var c := if flag == Zero then ZERO else SPACE;
      var at := PutPadding(dst, 0, c, remain);
      ghost var pad := dst[..at];
      assert pad == Repeat(c, remain);
      ghost var was := dst[..];
      var end := StrCpy(dst, at, buf);
      assert dst[..end] == pad + CStr(buf);
      Behind(old(dst[..]), was, dst[..], at, end + 1);
    } else {
      var at := StrCpy(dst, 0, buf);
      ghost var s, was := dst[..at], dst[..];
      assert s == CStr(buf);
      var end := PutPadding(dst, at, SPACE, remain);
      assert dst[..end] == s + Repeat(SPACE, remain);
      AfterPadding(old(dst[..]), was, dst[..], at, end);
    }
  }
}
