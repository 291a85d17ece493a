/**
 The kernel's integer printer: digits are produced backwards into a twelve-character buffer and the
 string found there is padded on one side.
 */
module Printf {
  import opened Wrappers

  // ---- what a printed number means ----

  function Fill(c: char, n: nat): string {
    seq(n, _ => c)
  }

  /** A value shifted left by `n` digits. */
  function Shifted(v: nat, b: nat, n: nat): nat {
    if n == 0 then v else Shifted(v, b, n - 1) * b
  }

  function DigitValue(c: char): nat {
    if '0' <= c <= '9' then c as nat - '0' as nat
    else if 'a' <= c <= 'f' then 10 + c as nat - 'a' as nat
    else if 'A' <= c <= 'F' then 10 + c as nat - 'A' as nat
    else 16
  }

  predicate AllDigits(s: string, b: nat) {
    forall k | 0 <= k < |s| :: DigitValue(s[k]) < b
  }

  function Value(s: string, b: nat): nat {
    if |s| == 0 then 0 else Value(s[..|s| - 1], b) * b + DigitValue(s[|s| - 1])
  }

  function StripLeft(s: string): string {
    if |s| > 0 && s[0] == ' ' then StripLeft(s[1..]) else s
  }

  function StripRight(s: string): string {
    if |s| > 0 && s[|s| - 1] == ' ' then StripRight(s[..|s| - 1]) else s
  }

  /** The number a reader finds in a field: blanks, an optional sign, digits, blanks. */
  function Reading(field: string, b: nat): Option<int> {
    var s := StripRight(StripLeft(field));
    var negative := |s| > 0 && s[0] == '-';
    var digits := if negative then s[1..] else s;
    if |digits| == 0 || !AllDigits(digits, b) then None
    else Some(if negative then -(Value(digits, b) as int) else Value(digits, b))
  }

  lemma {:induction false} StripLeftFill(n: nat, s: string)
    requires |s| > 0 && s[0] != ' '
    ensures StripLeft(Fill(' ', n) + s) == s
  {
    if n == 0 {
      assert Fill(' ', n) + s == s;
    } else {
      assert (Fill(' ', n) + s)[1..] == Fill(' ', n - 1) + s;
      StripLeftFill(n - 1, s);
    }
  }

  lemma {:induction false} StripRightFill(s: string, n: nat)
    requires |s| > 0 && s[|s| - 1] != ' '
    ensures StripRight(s + Fill(' ', n)) == s
  {
    var t := s + Fill(' ', n);
    if n == 0 {
      assert t == s;
    } else {
      assert t[..|t| - 1] == s + Fill(' ', n - 1);
      StripRightFill(s, n - 1);
    }
  }

  function Sign(negative: bool): string {
    if negative then "-" else ""
  }

  function Signed(negative: bool, magnitude: nat): int {
    if negative then -(magnitude as int) else magnitude
  }

  /** Blanks around a signed numeral do not change what is read. */
  lemma {:induction false} ReadingOfField(l: nat, negative: bool, digits: string, r: nat, b: nat)
    requires |digits| > 0 && AllDigits(digits, b) && b <= 16
    ensures Reading(Fill(' ', l) + ((Sign(negative) + digits) + Fill(' ', r)), b) ==
            Some(Signed(negative, Value(digits, b)))
  {
    var core := Sign(negative) + digits;
    SignedDigits(negative, digits, b);
    StripLeftFill(l, core + Fill(' ', r));
    StripRightFill(core, r);
  }

  lemma {:induction false} SignedDigits(negative: bool, digits: string, b: nat)
    requires |digits| > 0 && AllDigits(digits, b) && b <= 16
    ensures var core := Sign(negative) + digits;
            && |core| > 0 && core[0] != ' ' && core[|core| - 1] != ' '
            && (core[0] == '-' <==> negative)
            && (if negative then core[1..] == digits else core == digits)
  {
    var core := Sign(negative) + digits;
    assert DigitValue(digits[0]) < b && DigitValue(digits[|digits| - 1]) < b;
    assert core[|core| - 1] == digits[|digits| - 1];
  }

  lemma {:induction false} LeadingZeros(n: nat, s: string, b: nat)
    requires b > 0
    ensures Value(Fill('0', n) + s, b) == Value(s, b)
    ensures AllDigits(s, b) ==> AllDigits(Fill('0', n) + s, b)
    decreases n + |s|
  {
    var t := Fill('0', n) + s;
    if |s| > 0 {
      assert t[..|t| - 1] == Fill('0', n) + s[..|s| - 1];
      LeadingZeros(n, s[..|s| - 1], b);
    } else if n > 0 {
      assert t[..|t| - 1] == Fill('0', n - 1) + s;
      LeadingZeros(n - 1, s, b);
    }
  }

  lemma {:induction false} TrailingZeros(s: string, n: nat, b: nat)
    requires b > 0
    ensures Value(s + Fill('0', n), b) == Shifted(Value(s, b), b, n)
    ensures AllDigits(s, b) ==> AllDigits(s + Fill('0', n), b)
  {
    var t := s + Fill('0', n);
    if n == 0 {
      assert t == s;
    } else {
      assert t[..|t| - 1] == s + Fill('0', n - 1);
      TrailingZeros(s, n - 1, b);
    }
  }

  // ---- digits ----

  predicate IsBase(b: nat, letbase: char) {
    (b == 10 || b == 16) && (letbase == 'a' || letbase == 'A')
  }

  function DigitChar(t: nat, letbase: char): (c: char)
    requires t < 16 && (letbase == 'a' || letbase == 'A')
    ensures c != '\0' && DigitValue(c) == t
  {
    if t >= 10 then ((t - 10) + letbase as nat) as char else (t + '0' as nat) as char
  }

  function Digits(u: nat, b: nat, letbase: char): string
    requires IsBase(b, letbase)
  {
    if u == 0 then "" else Digits(u / b, b, letbase) + [DigitChar(u % b, letbase)]
  }

  /** The digits are a numeral for the number, without NUL characters. */
  lemma {:induction false} DigitsDenote(u: nat, b: nat, letbase: char)
    requires IsBase(b, letbase)
    ensures Value(Digits(u, b, letbase), b) == u && AllDigits(Digits(u, b, letbase), b)
    ensures '\0' !in Digits(u, b, letbase)
    ensures u > 0 ==> |Digits(u, b, letbase)| > 0
  {
    if u > 0 {
      DigitsDenote(u / b, b, letbase);
      var s := Digits(u, b, letbase);
      assert s[..|s| - 1] == Digits(u / b, b, letbase);
    }
  }

  lemma {:induction false} OneDigitLess(u: nat, b: nat, c: nat)
    requires (b == 10 || b == 16) && u < c * 10
    ensures u / b < c
  {
  }

  /** All digits but the last one. */
  lemma {:induction false} MoreDigits(u: nat, b: nat, letbase: char, c: nat) returns (v: nat)
    requires IsBase(b, letbase) && 0 < u < c * 10
    ensures v < c && |Digits(u, b, letbase)| == |Digits(v, b, letbase)| + 1
  {
    v := u / b;
    OneDigitLess(u, b, c);
  }

  lemma {:induction false} DigitsAreFew(u: nat, b: nat, letbase: char, n: nat)
    requires IsBase(b, letbase) && u < Shifted(1, 10, n)
    ensures |Digits(u, b, letbase)| <= n
    decreases n
  {
    if u > 0 && n > 0 {
      var v := MoreDigits(u, b, letbase, Shifted(1, 10, n - 1));
      DigitsAreFew(v, b, letbase, n - 1);
    }
  }

  const WORD: nat := 0x1_0000_0000

  lemma {:induction false} TenDigitsSuffice(u: nat, b: nat, letbase: char)
    requires IsBase(b, letbase) && u < WORD
    ensures |Digits(u, b, letbase)| <= 10
  {
    assert Shifted(1, 10, 10) == 10000000000;
    DigitsAreFew(u, b, letbase, 10);
  }

  // ---- padding ----

  datatype Pad = Pad(right: bool, zero: bool)

  function Padding(len: nat, width: int): nat {
    if width > len then width - len else 0
  }

  function Padded(s: string, width: int, pad: Pad): string {
    var fill := Fill(if pad.zero then '0' else ' ', Padding(|s|, width));
    if pad.right then s + fill else fill + s
  }

  /** A NUL-terminated string in a buffer. */
  ghost predicate IsCString(a: array<char>, start: nat, end: nat)
    reads a
  {
    start <= end < a.Length && a[end] == '\0' && forall k | start <= k < end :: a[k] != '\0'
  }

  method Length(a: array<char>, start: nat, ghost end: nat) returns (len: nat)
    requires IsCString(a, start, end)
    ensures len == end - start
  {
    len := 0;
    var ptr := start;
    while a[ptr] != '\0'
      invariant start <= ptr <= end && len == ptr - start
      decreases end - ptr
    {
      ptr, len := ptr + 1, len + 1;
    }
  }

  method PrintFill(out: string, c: char, n: nat) returns (pc: nat, out': string)
    ensures out' == out + Fill(c, n) && pc == n
  {
    pc, out' := 0, out;
    var left: nat := n;
    while left > 0
      invariant left <= n && out' == out + Fill(c, n - left) && pc == n - left
    {
      pc, out', left := pc + 1, out' + [c], left - 1;
    }
  }

  method PrintChars(out: string, a: array<char>, start: nat, ghost end: nat) returns (pc: nat, out': string)
    requires IsCString(a, start, end)
    ensures out' == out + a[start..end] && pc == end - start
  {
    pc, out' := 0, out;
    var ptr := start;
    while a[ptr] != '\0'
      invariant start <= ptr <= end && out' == out + a[start..ptr] && pc == ptr - start
      decreases end - ptr
    {
      pc, out', ptr := pc + 1, out' + [a[ptr]], ptr + 1;
    }
  }

  /** Prints the string at `start`, padded to `width`; the count is that of the characters emitted. */
  method PrintS(a: array<char>, start: nat, ghost end: nat, width: int, pad: Pad) returns (pc: nat, out: string)
    requires IsCString(a, start, end)
    ensures out == Padded(a[start..end], width, pad) && pc == |out|
  {
    pc, out := 0, [];
    ghost var s := a[start..end];
    var left, padchar := 0, ' ';
    if width > 0 {
      var len := Length(a, start, end);
      if len < width {
        left := width - len;
      }
      if pad.zero {
        padchar := '0';
      }
    }
    ghost var fill := Fill(padchar, left);
    assert fill == Fill(if pad.zero then '0' else ' ', Padding(|s|, width));
    if !pad.right {
      pc, out := PrintFill(out, padchar, left);
      left := 0;
    }
    assert out == if pad.right then [] else fill;
    var chars, trailing;
    chars, out := PrintChars(out, a, start, end);
    assert out == if pad.right then s else fill + s;
    trailing, out := PrintFill(out, padchar, left);
    pc := pc + chars + trailing;
  }

  // ---- the integer printer ----

  const BUFFER_LENGTH: nat := 12

  predicate IsNegative(i: int, b: nat, signed: bool) {
    signed && b == 10 && i < 0
  }

  /** The unsigned word whose digits are printed; the least integer is its own negation. */
  function Magnitude(i: int, b: nat, signed: bool): (u: nat)
    requires -0x8000_0000 <= i < 0x8000_0000
    ensures u < WORD && (u == 0 <==> i == 0)
  {
    if IsNegative(i, b, signed) then -i else if i < 0 then i + WORD else i
  }

  /** A number in its field: a sign in front of zeros does not take part in the padding. */
  function Field(negative: bool, digits: string, width: int, pad: Pad): string {
    if negative && width != 0 && pad.zero then "-" + Padded(digits, width - 1, pad)
    else Padded(Sign(negative) + digits, width, pad)
  }

  /** The text that the printer emits. */
  function Output(i: int, b: nat, signed: bool, width: int, pad: Pad, letbase: char): string
    requires IsBase(b, letbase) && -0x8000_0000 <= i < 0x8000_0000
  {
    Field(IsNegative(i, b, signed), Numeral(Magnitude(i, b, signed), b, letbase), width, pad)
  }

  function Numeral(u: nat, b: nat, letbase: char): string
    requires IsBase(b, letbase)
  {
    if u == 0 then "0" else Digits(u, b, letbase)
  }

  lemma {:induction false} NumeralDenotes(u: nat, b: nat, letbase: char)
    requires IsBase(b, letbase)
    ensures Value(Numeral(u, b, letbase), b) == u && AllDigits(Numeral(u, b, letbase), b)
    ensures |Numeral(u, b, letbase)| > 0
  {
    DigitsDenote(u, b, letbase);
    assert Value("0", b) == 0;
  }

  /** Writes one more character at the front of the string in the buffer. */
  method Push(a: array<char>, s: nat, c: char) returns (s': nat)
    requires a.Length == BUFFER_LENGTH && 0 < s && IsCString(a, s, 11) && c != '\0'
    modifies a
    ensures s' == s - 1 && IsCString(a, s', 11) && a[s'..11] == [c] + old(a[s..11])
  {
    s' := s - 1;
    a[s'] := c;
  }

  lemma {:induction false} DigitsStep(u: nat, b: nat, letbase: char, tail: string)
    requires IsBase(b, letbase) && u > 0
    ensures Digits(u, b, letbase) + tail == Digits(u / b, b, letbase) + ([DigitChar(u % b, letbase)] + tail)
    ensures |Digits(u, b, letbase)| > 0 && 0 <= u / b < u
  {
    Quotient(u, b);
  }

  lemma {:induction false} Quotient(u: nat, b: nat)
    requires (b == 10 || b == 16) && u > 0
    ensures 0 <= u / b < u
  {
    if b == 10 {
      assert u / 10 < u;
    } else {
      assert u / 16 < u;
    }
  }

  /** The digits end at the terminator and leave room for a sign. */
  method WriteDigits(a: array<char>, u: nat, b: nat, letbase: char) returns (s: nat)
    requires a.Length == BUFFER_LENGTH && IsBase(b, letbase) && u < WORD
    modifies a
    ensures 0 < s && IsCString(a, s, 11) && a[s..11] == Digits(u, b, letbase)
  {
    TenDigitsSuffice(u, b, letbase);
    s := BUFFER_LENGTH - 1;
    a[s] := '\0';
    var rest: nat := u;
    while rest > 0
      invariant IsCString(a, s, 11)
      invariant Digits(u, b, letbase) == Digits(rest, b, letbase) + a[s..11]
    {
      DigitsStep(rest, b, letbase, a[s..11]);
      var t, u' := rest % b, rest / b;
      s := Push(a, s, DigitChar(t, letbase));
      rest := u';
    }
  }

  /** Prints the digits in the buffer, with their sign. */
  method PrintField(a: array<char>, s: nat, negative: bool, width: int, pad: Pad) returns (pc: nat, out: string)
    requires a.Length == BUFFER_LENGTH && 0 < s && IsCString(a, s, 11)
    modifies a
    ensures out == Field(negative, old(a[s..11]), width, pad) && pc == |out|
  {
    if negative {
      if width != 0 && pad.zero {
        pc, out := PrintS(a, s, 11, width - 1, pad);
        pc, out := pc + 1, "-" + out;
      } else {
        var s' := Push(a, s, '-');
        pc, out := PrintS(a, s', 11, width, pad);
      }
    } else {
      pc, out := PrintS(a, s, 11, width, pad);
      assert Sign(negative) + a[s..11] == a[s..11];
    }
  }

  /** All indices stay inside the buffer: at most ten digits, a sign and the terminator. */
  method PrintI(i: int, b: nat, signed: bool, width: int, pad: Pad, letbase: char) returns (pc: nat, out: string)
    requires IsBase(b, letbase) && -0x8000_0000 <= i < 0x8000_0000
    ensures out == Output(i, b, signed, width, pad, letbase) && pc == |out|
  {
    var buffer := new char[BUFFER_LENGTH];
    if i == 0 {
      buffer[0], buffer[1] := '0', '\0';
      assert buffer[0..1] == "0" == Sign(false) + "0";
      pc, out := PrintS(buffer, 0, 1, width, pad);
      return;
    }
    var negative := false;
    var u: nat := if i < 0 then i + WORD else i;
    if signed && b == 10 && i < 0 {
      negative, u := true, -i;
    }
    var s := WriteDigits(buffer, u, b, letbase);
    pc, out := PrintField(buffer, s, negative, width, pad);
  }

  // ---- the round trip ----

  lemma {:induction false} OutputLength(i: int, b: nat, signed: bool, width: int, pad: Pad, letbase: char)
    requires IsBase(b, letbase) && -0x8000_0000 <= i < 0x8000_0000
    ensures var field := Sign(IsNegative(i, b, signed)) + Numeral(Magnitude(i, b, signed), b, letbase);
            |Output(i, b, signed, width, pad, letbase)| == if width > |field| then width else |field|
  {
    NumeralDenotes(Magnitude(i, b, signed), b, letbase);
  }

  /** Zeros appended to a numeral keep its value exactly when there are none or it is zero. */
  lemma {:induction false} AppendedZeros(v: nat, b: nat, n: nat)
    requires b > 1
    ensures Shifted(v, b, n) >= v
    ensures Shifted(v, b, n) == v <==> n == 0 || v == 0
  {
    if n > 0 {
      AppendedZeros(v, b, n - 1);
      var w := Shifted(v, b, n - 1);
      assert w * b >= w * 2;
    }
  }

  /** Zeros before and after a numeral. */
  lemma {:induction false} ReadingOfZeros(negative: bool, l: nat, digits: string, r: nat, b: nat)
    requires |digits| > 0 && AllDigits(digits, b) && 0 < b <= 16
    ensures Reading(Sign(negative) + (Fill('0', l) + (digits + Fill('0', r))), b) ==
            Some(Signed(negative, Shifted(Value(digits, b), b, r)))
  {
    TrailingZeros(digits, r, b);
    LeadingZeros(l, digits + Fill('0', r), b);
    var all := Fill('0', l) + (digits + Fill('0', r));
    ReadingOfField(0, negative, all, 0, b);
    assert Fill(' ', 0) + ((Sign(negative) + all) + Fill(' ', 0)) == Sign(negative) + all;
  }

  /** Padding with blanks, on either side. */
  lemma {:induction false} ReadingOfBlanks(negative: bool, digits: string, width: int, pad: Pad, b: nat)
    requires |digits| > 0 && AllDigits(digits, b) && 0 < b <= 16 && !pad.zero
    ensures Reading(Padded(Sign(negative) + digits, width, pad), b) == Some(Signed(negative, Value(digits, b)))
  {
    var core := Sign(negative) + digits;
    var n := Padding(|core|, width);
    if pad.right {
      ReadingOfField(0, negative, digits, n, b);
      assert Padded(core, width, pad) == Fill(' ', 0) + (core + Fill(' ', n));
    } else {
      ReadingOfField(n, negative, digits, 0, b);
      assert Padded(core, width, pad) == Fill(' ', n) + (core + Fill(' ', 0));
    }
  }

  /** A sign followed by a numeral padded with zeros. */
  lemma {:induction false} ReadingOfZeroPadded(negative: bool, digits: string, width: int, pad: Pad, b: nat)
    requires |digits| > 0 && AllDigits(digits, b) && 0 < b <= 16 && pad.zero
    ensures var n := Padding(|digits|, width);
            Reading(Sign(negative) + Padded(digits, width, pad), b) ==
            Some(Signed(negative, if pad.right then Shifted(Value(digits, b), b, n) else Value(digits, b)))
  {
    var n := Padding(|digits|, width);
    if pad.right {
      ReadingOfZeros(negative, 0, digits, n, b);
      assert Padded(digits, width, pad) == Fill('0', 0) + (digits + Fill('0', n));
    } else {
      ReadingOfZeros(negative, n, digits, 0, b);
      assert Padded(digits, width, pad) == Fill('0', n) + (digits + Fill('0', 0));
    }
  }

  lemma {:induction false} SignOfPadded(negative: bool, digits: string, width: int, pad: Pad)
    requires negative ==> width == 0
    ensures Sign(negative) + Padded(digits, width, pad) == Padded(Sign(negative) + digits, width, pad)
  {
    if !negative {
      assert Sign(negative) + digits == digits;
      assert Sign(negative) + Padded(digits, width, pad) == Padded(digits, width, pad);
    }
  }

  /** The number found in a field when `n` characters of padding were needed. */
  function Found(negative: bool, digits: string, n: nat, pad: Pad, b: nat): int {
    Signed(negative, if pad.zero && pad.right then Shifted(Value(digits, b), b, n) else Value(digits, b))
  }

  lemma {:induction false} ReadingOfZeroField(negative: bool, digits: string, width: int, pad: Pad, b: nat)
    requires |digits| > 0 && AllDigits(digits, b) && 0 < b <= 16 && pad.zero
    ensures Reading(Field(negative, digits, width, pad), b) ==
            Some(Found(negative, digits, Padding(|Sign(negative)| + |digits|, width), pad, b))
  {
    var w := if negative && width != 0 then width - 1 else width;
    ReadingOfZeroPadded(negative, digits, w, pad, b);
    assert Padding(|digits|, w) == Padding(|Sign(negative)| + |digits|, width);
    assert Field(negative, digits, width, pad) == Sign(negative) + Padded(digits, w, pad) by {
      if !(negative && width != 0) {
        SignOfPadded(negative, digits, width, pad);
      }
    }
  }

  /** What is read back from a field, in every case. */
  lemma {:induction false} ReadingOfSigned(negative: bool, digits: string, width: int, pad: Pad, b: nat)
    requires |digits| > 0 && AllDigits(digits, b) && 0 < b <= 16
    ensures Reading(Field(negative, digits, width, pad), b) ==
            Some(Found(negative, digits, Padding(|Sign(negative)| + |digits|, width), pad, b))
  {
    if pad.zero {
      ReadingOfZeroField(negative, digits, width, pad, b);
    } else {
      ReadingOfBlanks(negative, digits, width, pad, b);
    }
  }

  /** The number the caller asked for: the integer, or its residue modulo 2^32 where it is unsigned. */
  function Meant(i: int, b: nat, signed: bool): int {
    if i >= 0 || (signed && b == 10) then i else i + WORD
  }

  lemma {:induction false} MeantIsSigned(i: int, b: nat, signed: bool)
    requires -0x8000_0000 <= i < 0x8000_0000
    ensures Meant(i, b, signed) == Signed(IsNegative(i, b, signed), Magnitude(i, b, signed))
    ensures Meant(i, b, signed) != 0 <==> i != 0
  {
  }

  lemma {:induction false} FieldReadsBack(negative: bool, u: nat, v: int, digits: string, width: int, pad: Pad, b: nat)
    requires |digits| > 0 && AllDigits(digits, b) && 1 < b <= 16 && Value(digits, b) == u && v == Signed(negative, u)
    ensures Reading(Field(negative, digits, width, pad), b) == Some(v) <==>
            !(pad.zero && pad.right && width > |Sign(negative)| + |digits| && v != 0)
  {
    ReadingOfSigned(negative, digits, width, pad, b);
    AppendedZeros(u, b, Padding(|Sign(negative)| + |digits|, width));
  }

  /**
   The output reads back as the number printed, except when zeros were appended on the right of a
   number other than zero.
   */
  lemma {:induction false} ReadsBackExactlyWhen(i: int, b: nat, signed: bool, width: int, pad: Pad, letbase: char)
    requires IsBase(b, letbase) && -0x8000_0000 <= i < 0x8000_0000
    ensures var u := Magnitude(i, b, signed);
            var negative := IsNegative(i, b, signed);
            var length := |Sign(negative)| + |Numeral(u, b, letbase)|;
            Reading(Output(i, b, signed, width, pad, letbase), b) == Some(Meant(i, b, signed)) <==>
            !(pad.zero && pad.right && width > length && i != 0)
  {
    var u := Magnitude(i, b, signed);
    var negative := IsNegative(i, b, signed);
    var digits := Numeral(u, b, letbase);
    NumeralDenotes(u, b, letbase);
    MeantIsSigned(i, b, signed);
    FieldReadsBack(negative, u, Meant(i, b, signed), digits, width, pad, b);
  }

  // ---- the text emitted ----

  /** A digit with letters from the given one on. */
  predicate IsDigit(c: char, letbase: char)
    requires letbase == 'a' || letbase == 'A'
  {
    '0' <= c <= '9' || letbase as nat <= c as nat < letbase as nat + 6
  }

  /** A numeral without leading zeros, its letters in one case. */
  ghost predicate Canonical(s: string, b: nat, letbase: char)
    requires IsBase(b, letbase)
  {
    && |s| > 0 && (s[0] == '0' ==> s == "0")
    && (forall k | 0 <= k < |s| :: IsDigit(s[k], letbase) && DigitValue(s[k]) < b)
  }

  lemma {:induction false} LastDigit(v: nat, d: nat, b: nat)
    requires (b == 10 || b == 16) && d < b
    ensures (v * b + d) / b == v && (v * b + d) % b == d
  {
  }

  /** A numeral, digit by digit. */
  lemma {:induction false} DigitsOfMore(v: nat, d: nat, b: nat, letbase: char)
    requires IsBase(b, letbase) && d < b
    ensures v * b + d > 0 ==> Digits(v * b + d, b, letbase) == Digits(v, b, letbase) + [DigitChar(d, letbase)]
  {
    LastDigit(v, d, b);
  }

  lemma {:induction false} SplitNumber(u: nat, b: nat) returns (v: nat, d: nat)
    requires b == 10 || b == 16
    ensures u == v * b + d && d < b && (u > 0 ==> v < u)
  {
    v, d := u / b, u % b;
    if u > 0 {
      Quotient(u, b);
    }
  }

  lemma {:induction false} OneMoreDigit(s: string, d: nat, b: nat, letbase: char)
    requires IsBase(b, letbase) && d < b && Canonical(s, b, letbase) && s != "0"
    ensures Canonical(s + [DigitChar(d, letbase)], b, letbase)
  {
  }

  lemma {:induction false} DigitsAreCanonical(u: nat, b: nat, letbase: char)
    requires IsBase(b, letbase) && u > 0
    ensures Canonical(Digits(u, b, letbase), b, letbase)
  {
    var v, d := SplitNumber(u, b);
    DigitsOfMore(v, d, b, letbase);
    if v > 0 {
      DigitsAreCanonical(v, b, letbase);
      DigitsDenote(v, b, letbase);
      assert Value("0", b) == 0;
      OneMoreDigit(Digits(v, b, letbase), d, b, letbase);
    }
  }

  lemma {:induction false} NotZero(s: string, b: nat, letbase: char)
    requires IsBase(b, letbase) && Canonical(s, b, letbase) && s[0] != '0'
    requires s == Numeral(Value(s, b), b, letbase)
    ensures Value(s, b) > 0
  {
  }

  lemma {:induction false} CharOfValue(c: char, letbase: char)
    requires (letbase == 'a' || letbase == 'A') && IsDigit(c, letbase)
    ensures DigitValue(c) < 16 && DigitChar(DigitValue(c), letbase) == c
  {
  }

  lemma {:induction false} NumeralOfMore(v: nat, d: nat, b: nat, letbase: char)
    requires IsBase(b, letbase) && d < b
    ensures Numeral(v * b + d, b, letbase) == (if v > 0 then Digits(v, b, letbase) else "") + [DigitChar(d, letbase)]
  {
    DigitsOfMore(v, d, b, letbase);
  }

  /** There is one such numeral for each number. */
  lemma {:induction false} CanonicalIsUnique(s: string, b: nat, letbase: char)
    requires IsBase(b, letbase) && Canonical(s, b, letbase)
    ensures s == Numeral(Value(s, b), b, letbase)
  {
    var p, c := s[..|s| - 1], s[|s| - 1];
    var v := Value(p, b);
    CharOfValue(c, letbase);
    NumeralOfMore(v, DigitValue(c), b, letbase);
    assert Value(s, b) == v * b + DigitValue(c);
    assert s == p + [c];
    if |s| > 1 {
      PrefixIsCanonical(s, b, letbase);
      CanonicalIsUnique(p, b, letbase);
      NotZero(p, b, letbase);
    }
  }

  lemma {:induction false} PrefixIsCanonical(s: string, b: nat, letbase: char)
    requires IsBase(b, letbase) && Canonical(s, b, letbase) && |s| > 1
    ensures Canonical(s[..|s| - 1], b, letbase) && s[..|s| - 1][0] != '0'
  {
  }

  /**
   What is printed, in one line: the sign, the numeral of the number and the padding, which goes to the right or to the
   left of both, except that zeros on the left come after the sign.
   */
  ghost predicate IsText(out: string, sign: string, digits: string, fill: nat, pad: Pad) {
    out == if pad.right then sign + digits + Fill(if pad.zero then '0' else ' ', fill)
           else if pad.zero then sign + Fill('0', fill) + digits
           else Fill(' ', fill) + sign + digits
  }

  lemma {:induction false} FieldIsText(negative: bool, digits: string, width: int, pad: Pad)
    requires |digits| > 0
    ensures IsText(Field(negative, digits, width, pad), Sign(negative), digits,
                   Padding(|Sign(negative)| + |digits|, width), pad)
  {
    var sign, out := Sign(negative), Field(negative, digits, width, pad);
    var n := Padding(|sign| + |digits|, width);
    if negative && width != 0 && pad.zero {
      assert Padding(|digits|, width - 1) == n;
      if pad.right {
        assert "-" + (digits + Fill('0', n)) == sign + digits + Fill('0', n);
      } else {
        assert "-" + (Fill('0', n) + digits) == sign + Fill('0', n) + digits;
      }
    } else if !negative {
      assert sign + digits == digits;
      assert Fill(' ', n) + sign == Fill(' ', n) && sign + Fill('0', n) == Fill('0', n);
    } else {
      assert !pad.right ==> Fill(' ', n) + (sign + digits) == Fill(' ', n) + sign + digits;
      assert pad.zero ==> n == 0 && sign + Fill('0', 0) == sign && Fill('0', 0) + (sign + digits) == sign + digits;
    }
  }

  lemma {:induction false} NumeralIsCanonical(u: nat, b: nat, letbase: char, digits: string)
    requires IsBase(b, letbase) && digits == Numeral(u, b, letbase)
    ensures |digits| > 0 && Canonical(digits, b, letbase) && Value(digits, b) == u
  {
    NumeralDenotes(u, b, letbase);
    if u > 0 {
      DigitsAreCanonical(u, b, letbase);
    }
  }

  /** For every number, base and padding: the text printed. */
  lemma {:induction false} OutputIsText(i: int, b: nat, signed: bool, width: int, pad: Pad, letbase: char)
    returns (sign: string, digits: string)
    requires IsBase(b, letbase) && -0x8000_0000 <= i < 0x8000_0000
    ensures sign == if signed && b == 10 && i < 0 then "-" else ""
    ensures Canonical(digits, b, letbase)
    ensures Value(digits, b) == if i >= 0 then i else if signed && b == 10 then -i else i + 0x1_0000_0000
    ensures IsText(Output(i, b, signed, width, pad, letbase), sign, digits,
                   if width > |sign| + |digits| then width - |sign| - |digits| else 0, pad)
  {
    var u := Magnitude(i, b, signed);
    sign, digits := Sign(IsNegative(i, b, signed)), Numeral(u, b, letbase);
    NumeralIsCanonical(u, b, letbase, digits);
    FieldIsText(IsNegative(i, b, signed), digits, width, pad);
  }

  /** `%-05d` of 42 emits 42000. */
  lemma {:induction false} RightZeroPadding()
    ensures Output(42, 10, true, 5, Pad(true, true), 'a') == "42000"
  {
    assert Digits(4, 10, 'a') == Digits(0, 10, 'a') + ['4'];
    assert Digits(42, 10, 'a') == Digits(4, 10, 'a') + ['2'] == "42";
    assert Fill('0', 3) == "000";
  }
}
