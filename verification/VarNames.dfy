/**
 The names of the bytes of a test case, as printed when they are made symbolic, and the lines of the
 file that gives each its value.
 */
module VarNames {
  import opened Wrappers
  import Base32
  import Printf

  // ---- splitting text ----

  function Split(s: string, c: char): (parts: seq<string>)
    ensures |parts| > 0
  {
    if s == "" then [""]
    else
      var rest := Split(s[1..], c);
      if s[0] == c then [""] + rest else [[s[0]] + rest[0]] + rest[1..]
  }

  lemma {:induction false} SplitNone(s: string, c: char)
    requires c !in s
    ensures Split(s, c) == [s]
  {
    if s != "" {
      SplitNone(s[1..], c);
      assert [s[0]] + s[1..] == s;
    }
  }

  lemma {:induction false} SplitFirst(s: string, c: char, rest: string)
    requires c !in s
    ensures Split(s + [c] + rest, c) == [s] + Split(rest, c)
  {
    var t := s + [c] + rest;
    if s == "" {
      assert t[1..] == rest;
    } else {
      assert t[1..] == s[1..] + [c] + rest;
      SplitFirst(s[1..], c, rest);
      assert ([s[1..]] + Split(rest, c))[1..] == Split(rest, c);
      assert [s[0]] + s[1..] == s;
    }
  }

  /** The parts, with a separator between each two. */
  function Join(parts: seq<string>, c: char): string
    requires |parts| > 0
  {
    if |parts| == 1 then parts[0] else parts[0] + [c] + Join(parts[1..], c)
  }

  ghost predicate Without(parts: seq<string>, c: char) {
    forall i | 0 <= i < |parts| :: c !in parts[i]
  }

  /** Splitting undoes joining when no part contains the separator. */
  lemma {:induction false} SplitOfJoin(parts: seq<string>, c: char)
    requires |parts| > 0 && Without(parts, c)
    ensures Split(Join(parts, c), c) == parts
  {
    if |parts| == 1 {
      SplitNone(parts[0], c);
    } else {
      SplitOfJoin(parts[1..], c);
      SplitFirst(parts[0], c, Join(parts[1..], c));
    }
  }

  /** And the other way round, for every text. */
  lemma {:induction false} JoinOfSplit(s: string, c: char)
    ensures Join(Split(s, c), c) == s && Without(Split(s, c), c)
  {
    if s != "" {
      var rest, parts := Split(s[1..], c), Split(s, c);
      JoinOfSplit(s[1..], c);
      if s[0] == c {
        assert parts[1..] == rest;
      } else {
        assert parts[1..] == rest[1..];
      }
      assert s == [s[0]] + s[1..];
    }
  }

  lemma {:induction false} JoinAvoids(parts: seq<string>, c: char, d: char)
    requires |parts| > 0 && Without(parts, d) && c != d
    ensures d !in Join(parts, c)
  {
    if |parts| > 1 {
      JoinAvoids(parts[1..], c, d);
    }
  }

  predicate IsSpace(c: char) {
    c in " \t\n\r\U{b}\U{c}"
  }

  function Strip(s: string): string {
    if |s| > 0 && IsSpace(s[0]) then Strip(s[1..])
    else if |s| > 0 && IsSpace(s[|s| - 1]) then Strip(s[..|s| - 1])
    else s
  }

  predicate StartsWith(s: string, prefix: string) {
    |prefix| <= |s| && s[..|prefix|] == prefix
  }

  // ---- numbers in text ----

  function Decimal(n: nat): string {
    Printf.Numeral(n, 10, 'a')
  }

  function Hex(n: nat): string {
    Printf.Numeral(n, 16, 'a')
  }

  /** At least eight hexadecimal digits. */
  function Hex8(n: nat): string {
    Printf.Fill('0', if |Hex(n)| < 8 then 8 - |Hex(n)| else 0) + Hex(n)
  }

  function ReadNumber(s: string, b: nat): Option<nat> {
    if |s| > 0 && Printf.AllDigits(s, b) then Some(Printf.Value(s, b)) else None
  }

  /** Reads an integer: a sign and, in base 16, a prefix are allowed. */
  function ReadSigned(t: string, b: nat): Option<int> {
    var negative, signed := StartsWith(t, "-"), StartsWith(t, "-") || StartsWith(t, "+");
    var u := if signed then t[1..] else t;
    var n := ReadNumber(if b == 16 && (StartsWith(u, "0x") || StartsWith(u, "0X")) then u[2..] else u, b);
    if n.None? then None else (var v: int := n.value; Some(if negative then -v else v))
  }

  /** Blanks around an integer are allowed. */
  function ReadInt(s: string, b: nat): Option<int> {
    ReadSigned(Strip(s), b)
  }

  predicate IsPlain(s: string) {
    '_' !in s && '=' !in s && '\n' !in s
  }

  lemma {:induction false} DigitsArePlain(s: string, b: nat)
    requires Printf.AllDigits(s, b) && b <= 16
    ensures IsPlain(s) && (|s| > 0 ==> !IsSpace(s[|s| - 1]))
  {
    forall i | 0 <= i < |s|
      ensures s[i] != '_' && s[i] != '=' && !IsSpace(s[i])
    {
      assert Printf.DigitValue(s[i]) < 16;
    }
  }

  lemma {:induction false} NumbersRoundTrip(n: nat)
    ensures ReadNumber(Decimal(n), 10) == Some(n) && IsPlain(Decimal(n))
    ensures ReadNumber(Hex(n), 16) == Some(n) && IsPlain(Hex(n)) && |Hex(n)| > 0 && !IsSpace(Hex(n)[|Hex(n)| - 1])
  {
    Printf.NumeralDenotes(n, 10, 'a');
    Printf.NumeralDenotes(n, 16, 'a');
    DigitsArePlain(Decimal(n), 10);
    DigitsArePlain(Hex(n), 16);
  }

  lemma {:induction false} NothingToStrip(t: string)
    requires |t| > 0 && !IsSpace(t[0]) && !IsSpace(t[|t| - 1])
    ensures Strip(t) == t
  {
  }

  lemma {:induction false} DigitCharacter(c: char)
    requires Printf.DigitValue(c) < 16
    ensures !IsSpace(c) && c != '-' && c != '+' && c != 'x' && c != 'X'
  {
  }

  lemma {:induction false} DigitsReadBack(s: string, b: nat)
    requires |s| > 0 && Printf.AllDigits(s, b) && b <= 16
    ensures ReadInt(s, b) == Some(Printf.Value(s, b))
  {
    DigitCharacter(s[0]);
    DigitCharacter(s[|s| - 1]);
    NothingToStrip(s);
    if |s| >= 2 {
      DigitCharacter(s[1]);
      assert s[..2][1] == s[1];
    }
  }

  lemma {:induction false} PrefixReadsBack(s: string)
    requires |s| > 0 && Printf.AllDigits(s, 16)
    ensures ReadInt("0x" + s, 16) == Some(Printf.Value(s, 16))
  {
    var t := "0x" + s;
    assert t[0] == '0' && t[|t| - 1] == s[|s| - 1];
    DigitCharacter(s[|s| - 1]);
    NothingToStrip(t);
    assert t[..2] == "0x" && t[2..] == s;
  }

  /** Numbers are read back as they were printed. */
  lemma {:induction false} IntegersRoundTrip(n: nat)
    ensures ReadInt(Decimal(n), 10) == Some(n) && ReadInt("0x" + Hex(n), 16) == Some(n)
  {
    Printf.NumeralDenotes(n, 10, 'a');
    Printf.NumeralDenotes(n, 16, 'a');
    DigitsReadBack(Decimal(n), 10);
    PrefixReadsBack(Hex(n));
  }

  /** The name of a memory cell reads back as its address. */
  lemma {:induction false} AddressRoundTrip(a: nat)
    ensures ReadNumber(Hex8(a), 16) == Some(a) && IsPlain(Hex8(a))
  {
    Printf.NumeralDenotes(a, 16, 'a');
    Printf.LeadingZeros(if |Hex(a)| < 8 then 8 - |Hex(a)| else 0, Hex(a), 16);
    DigitsArePlain(Hex8(a), 16);
  }

  /** Printed numbers have no leading zeros and small letters, but for addresses, which have at least eight digits. */
  lemma {:induction false} NumeralsExactly(n: nat)
    ensures Printf.Canonical(Decimal(n), 10, 'a') && Printf.Value(Decimal(n), 10) == n
    ensures Printf.Canonical(Hex(n), 16, 'a') && Printf.Value(Hex(n), 16) == n
    ensures Hex8(n) == if |Hex(n)| >= 8 then Hex(n) else seq(8 - |Hex(n)|, _ => '0') + Hex(n)
  {
    Printf.NumeralDenotes(n, 10, 'a');
    Printf.NumeralDenotes(n, 16, 'a');
    if n > 0 {
      Printf.DigitsAreCanonical(n, 10, 'a');
      Printf.DigitsAreCanonical(n, 16, 'a');
    }
    assert Printf.Fill('0', 0) + Hex(n) == Hex(n);
  }

  // ---- which texts are read as integers ----

  /** Tabulators, line and page breaks, and blanks. */
  ghost predicate AllBlank(s: string) {
    forall i | 0 <= i < |s| :: 9 <= s[i] as nat <= 13 || s[i] as nat == 32
  }

  lemma {:induction false} BlankCharacter(c: char)
    ensures IsSpace(c) <==> 9 <= c as nat <= 13 || c as nat == 32
  {
  }

  lemma {:induction false} OneMoreBlank(l: string, t: string, r: string, c: char)
    requires AllBlank(l) && AllBlank(r) && IsSpace(c)
    ensures [c] + (l + t + r) == ([c] + l) + t + r && AllBlank([c] + l)
    ensures (l + t + r) + [c] == l + t + (r + [c]) && AllBlank(r + [c])
  {
    BlankCharacter(c);
  }

  lemma {:induction false} BlankInFront(s: string, l: string, t: string, r: string)
    requires |s| > 0 && s[1..] == l + t + r && AllBlank(l) && AllBlank(r) && IsSpace(s[0])
    ensures s == ([s[0]] + l) + t + r && AllBlank([s[0]] + l)
  {
    assert s == [s[0]] + s[1..];
    OneMoreBlank(l, t, r, s[0]);
  }

  lemma {:induction false} BlankBehind(s: string, l: string, t: string, r: string)
    requires |s| > 0 && s[..|s| - 1] == l + t + r && AllBlank(l) && AllBlank(r) && IsSpace(s[|s| - 1])
    ensures s == l + t + (r + [s[|s| - 1]]) && AllBlank(r + [s[|s| - 1]])
  {
    assert s == s[..|s| - 1] + [s[|s| - 1]];
    OneMoreBlank(l, t, r, s[|s| - 1]);
  }

  /** What `Strip` takes away on either side. */
  lemma {:induction false} StripIs(s: string, t: string) returns (l: string, r: string)
    requires t == Strip(s)
    ensures s == l + t + r && AllBlank(l) && AllBlank(r)
    ensures t == "" || (!IsSpace(t[0]) && !IsSpace(t[|t| - 1]))
    decreases |s|
  {
    if |s| > 0 && IsSpace(s[0]) {
      l, r := StripIs(s[1..], t);
      BlankInFront(s, l, t, r);
      l := [s[0]] + l;
    } else if |s| > 0 && IsSpace(s[|s| - 1]) {
      l, r := StripIs(s[..|s| - 1], t);
      BlankBehind(s, l, t, r);
      r := r + [s[|s| - 1]];
    } else {
      l, r := "", "";
    }
  }

  lemma {:induction false} StripOf(l: string, t: string, r: string)
    requires AllBlank(l) && AllBlank(r) && |t| > 0 && !IsSpace(t[0]) && !IsSpace(t[|t| - 1])
    ensures Strip(l + t + r) == t
    decreases |l| + |r|
  {
    var s := l + t + r;
    if l != "" {
      BlankCharacter(l[0]);
      assert s[1..] == l[1..] + t + r;
      StripOf(l[1..], t, r);
    } else if r != "" {
      BlankCharacter(r[|r| - 1]);
      assert s[..|s| - 1] == l + t + r[..|r| - 1];
      assert s[0] == t[0];
      StripOf(l, t, r[..|r| - 1]);
    } else {
      assert s == t;
    }
  }

  /** The parts of the text of an integer. */
  datatype IntText = IntText(left: string, sign: string, prefix: string, digits: string, right: string)

  ghost predicate IsIntText(x: IntText, b: nat) {
    && AllBlank(x.left) && AllBlank(x.right)
    && (x.sign == "" || x.sign == "+" || x.sign == "-")
    && (x.prefix == "" || (b == 16 && (x.prefix == "0x" || x.prefix == "0X")))
    && |x.digits| > 0 && forall i | 0 <= i < |x.digits| :: Printf.DigitValue(x.digits[i]) < b
  }

  ghost function IntOf(x: IntText, b: nat): int {
    var v: int := Printf.Value(x.digits, b);
    if x.sign == "-" then -v else v
  }

  lemma {:induction false} PrefixIsTaken(x: IntText, b: nat, u: string)
    requires b <= 16 && IsIntText(x, b) && u == x.prefix + x.digits
    ensures |u| > 0 && u[0] != '-' && u[0] != '+' && !IsSpace(u[0]) && !IsSpace(u[|u| - 1])
    ensures x.digits == if b == 16 && (StartsWith(u, "0x") || StartsWith(u, "0X")) then u[2..] else u
  {
    DigitCharacter(x.digits[0]);
    DigitCharacter(x.digits[|x.digits| - 1]);
    if x.prefix == "" {
      assert u == x.digits;
      if |u| >= 2 {
        DigitCharacter(u[1]);
        assert u[..2][1] == u[1];
      }
    } else {
      assert u[..2] == x.prefix && u[2..] == x.digits;
    }
  }

  lemma {:induction false} SignIsTaken(sign: string, u: string, t: string)
    requires (sign == "" || sign == "+" || sign == "-") && t == sign + u
    requires |u| > 0 && u[0] != '-' && u[0] != '+' && !IsSpace(u[0]) && !IsSpace(u[|u| - 1])
    ensures |t| > 0 && !IsSpace(t[0]) && !IsSpace(t[|t| - 1]) && (StartsWith(t, "-") <==> sign == "-")
    ensures u == if StartsWith(t, "-") || StartsWith(t, "+") then t[1..] else t
  {
    assert t[..1] == [t[0]];
    if sign == "" {
      assert t == u;
    } else {
      assert t[1..] == u;
    }
  }

  /** How a text without blanks around it is read, step by step. */
  ghost predicate Dissected(t: string, b: nat, u: string, digits: string) {
    && u == (if StartsWith(t, "-") || StartsWith(t, "+") then t[1..] else t)
    && digits == (if b == 16 && (StartsWith(u, "0x") || StartsWith(u, "0X")) then u[2..] else u)
  }

  lemma {:induction false} ReadDissected(t: string, b: nat, u: string, digits: string)
    requires Dissected(t, b, u, digits)
    ensures ReadSigned(t, b) ==
            if |digits| > 0 && Printf.AllDigits(digits, b)
            then Some(if StartsWith(t, "-") then -(Printf.Value(digits, b) as int) else Printf.Value(digits, b))
            else None
  {
  }

  /** The text of the parts, put together from the inside out. */
  ghost predicate Assembled(x: IntText, s: string, t: string, u: string) {
    u == x.prefix + x.digits && t == x.sign + u && s == x.left + t + x.right
  }

  lemma {:induction false} SignedText(x: IntText, b: nat, t: string, u: string)
    requires b <= 16 && IsIntText(x, b) && u == x.prefix + x.digits && t == x.sign + u
    ensures |t| > 0 && !IsSpace(t[0]) && !IsSpace(t[|t| - 1])
    ensures (StartsWith(t, "-") <==> x.sign == "-") && Dissected(t, b, u, x.digits)
  {
    PrefixIsTaken(x, b, u);
    SignIsTaken(x.sign, u, t);
  }

  lemma {:induction false} SignedIsRead(x: IntText, b: nat, t: string, u: string)
    requires IsIntText(x, b) && Dissected(t, b, u, x.digits) && (StartsWith(t, "-") <==> x.sign == "-")
    ensures ReadSigned(t, b) == Some(IntOf(x, b))
  {
    ReadDissected(t, b, u, x.digits);
  }

  /** Every text of this shape is read as the integer it denotes. */
  lemma {:induction false} IntTextIsRead(x: IntText, b: nat, s: string, t: string, u: string)
    requires b <= 16 && IsIntText(x, b) && Assembled(x, s, t, u)
    ensures ReadInt(s, b) == Some(IntOf(x, b))
  {
    SignedText(x, b, t, u);
    StripOf(x.left, t, x.right);
    SignedIsRead(x, b, t, u);
  }

  /** No other text is read. */
  lemma {:induction false} ReadTextIsInt(s: string, b: nat) returns (x: IntText, t: string, u: string)
    requires b <= 16 && ReadInt(s, b).Some?
    ensures IsIntText(x, b) && Assembled(x, s, t, u) && ReadInt(s, b) == Some(IntOf(x, b))
  {
    t := Strip(s);
    var l, r := StripIs(s, t);
    x, u := ReadSignedIsInt(t, b, l, r);
  }

  lemma {:induction false} ReadSignedIsInt(t: string, b: nat, l: string, r: string) returns (x: IntText, u: string)
    requires b <= 16 && ReadSigned(t, b).Some? && AllBlank(l) && AllBlank(r)
    ensures IsIntText(x, b) && Assembled(x, l + t + r, t, u) && ReadSigned(t, b) == Some(IntOf(x, b))
  {
    var sign, prefix, digits;
    sign, u := TakeSign(t);
    prefix, digits := TakePrefix(u, b);
    ReadDissected(t, b, u, digits);
    x := IntText(l, sign, prefix, digits, r);
  }

  lemma {:induction false} TakeSign(t: string) returns (sign: string, u: string)
    ensures t == sign + u && (sign == "" || sign == "+" || sign == "-") && (sign == "-" <==> StartsWith(t, "-"))
    ensures u == if StartsWith(t, "-") || StartsWith(t, "+") then t[1..] else t
  {
    if StartsWith(t, "-") || StartsWith(t, "+") {
      sign, u := t[..1], t[1..];
    } else {
      sign, u := "", t;
    }
  }

  lemma {:induction false} TakePrefix(u: string, b: nat) returns (prefix: string, digits: string)
    ensures u == prefix + digits && (prefix == "" || (b == 16 && (prefix == "0x" || prefix == "0X")))
    ensures digits == if b == 16 && (StartsWith(u, "0x") || StartsWith(u, "0X")) then u[2..] else u
  {
    if b == 16 && (StartsWith(u, "0x") || StartsWith(u, "0X")) {
      prefix, digits := u[..2], u[2..];
    } else {
      prefix, digits := "", u;
    }
  }

  // ---- variables ----

  type Key = (string, string)

  /** One byte of a variable: the variable's kind, name, label and size, the byte's index, and its value. */
  datatype Entry = Entry(kind: string, name: string, info: seq<Base32.Byte>, size: nat, index: nat, value: Base32.Byte)
  {
    function Key(): Key {
      (kind, name)
    }
  }

  predicate WellFormed(e: Entry) {
    IsPlain(e.kind) && IsPlain(e.name)
  }

  /** A byte of a register; registers carry no label. */
  function RegisterByte(kind: string, name: string, size: nat, index: nat, value: Base32.Byte): Entry {
    Entry(kind, name, [], size, index, value)
  }

  /** A byte of memory is a variable of its own, named by its address. */
  function MemoryByte(address: nat, info: seq<Base32.Byte>, value: Base32.Byte): Entry {
    Entry("mem", Hex8(address), info, 1, 0, value)
  }

  lemma {:induction false} MemoryBytesAreWellFormed(address: nat, info: seq<Base32.Byte>, value: Base32.Byte)
    ensures WellFormed(MemoryByte(address, info, value))
  {
    AddressRoundTrip(address);
  }

  function NameParts(e: Entry): seq<string> {
    ["in", e.kind, e.name, Base32.Encode(e.info), Decimal(e.size), Decimal(e.index)]
  }

  function NameOf(e: Entry): string {
    Join(NameParts(e), '_')
  }

  function LineOf(e: Entry): string {
    NameOf(e) + "=" + ("0x" + Hex(e.value))
  }

  lemma {:induction false} JoinSix(p: seq<string>, c: char)
    requires |p| == 6
    ensures Join(p, c) == p[0] + [c] + p[1] + [c] + p[2] + [c] + p[3] + [c] + p[4] + [c] + p[5]
  {
    assert Join(p[4..], c) == p[4] + [c] + p[5];
    assert p[3..][1..] == p[4..] && p[2..][1..] == p[3..] && p[1..][1..] == p[2..];
    assert Join(p[3..], c) == p[3] + [c] + Join(p[4..], c);
    assert Join(p[2..], c) == p[2] + [c] + Join(p[3..], c);
    assert Join(p[1..], c) == p[1] + [c] + Join(p[2..], c);
  }

  lemma {:induction false} NameShape(kind: string, name: string, info: string, size: string, index: string)
    ensures Join(["in", kind, name, info, size, index], '_') ==
            "in_" + kind + "_" + name + "_" + info + "_" + size + "_" + index
  {
    JoinSix(["in", kind, name, info, size, index], '_');
  }

  lemma {:induction false} UnlabelledShape(kind: string, name: string, size: string, index: string)
    ensures Join(["in", kind, name, "", size, index], '_') == "in_" + kind + "_" + name + "__" + size + "_" + index
  {
    NameShape(kind, name, "", size, index);
  }

  lemma {:induction false} EmptyLabel()
    ensures Base32.Encode([]) == ""
  {
    assert Base32.Pack([], 8) == [];
  }

  /** The shape of the names of registers: their label is empty. */
  lemma {:induction false} RegisterNames(kind: string, name: string, size: nat, index: nat, value: Base32.Byte)
    ensures NameOf(RegisterByte(kind, name, size, index, value)) ==
            "in_" + kind + "_" + name + "__" + Decimal(size) + "_" + Decimal(index)
  {
    EmptyLabel();
    UnlabelledShape(kind, name, Decimal(size), Decimal(index));
  }

  /** The shape of the names of memory cells. */
  lemma {:induction false} MemoryNames(address: nat, info: seq<Base32.Byte>, value: Base32.Byte)
    ensures NameOf(MemoryByte(address, info, value)) ==
            "in_" + "mem" + "_" + Hex8(address) + "_" + Base32.Encode(info) + "_" + "1" + "_" + "0"
  {
    assert Printf.Digits(1, 10, 'a') == Printf.Digits(0, 10, 'a') + ['1'] == "1";
    NameShape("mem", Hex8(address), Base32.Encode(info), "1", "0");
  }

  lemma {:induction false} PartsArePlain(e: Entry)
    requires WellFormed(e)
    ensures Without(NameParts(e), '_') && Without(NameParts(e), '=') && Without(NameParts(e), '\n')
  {
    Base32.LabelsAreNames(e.info);
    NumbersRoundTrip(e.size);
    NumbersRoundTrip(e.index);
    var parts := NameParts(e);
    forall i | 0 <= i < 6
      ensures IsPlain(parts[i])
    {
    }
  }

  /** A line splits into the name and the value, and the name into its six parts. */
  lemma {:induction false} LineSplits(e: Entry)
    requires WellFormed(e)
    ensures Split(LineOf(e), '=') == [NameOf(e), "0x" + Hex(e.value)]
    ensures Split(NameOf(e), '_') == NameParts(e)
    ensures '\n' !in LineOf(e)
  {
    PartsArePlain(e);
    NumbersRoundTrip(e.value);
    SplitOfJoin(NameParts(e), '_');
    JoinAvoids(NameParts(e), '_', '=');
    JoinAvoids(NameParts(e), '_', '\n');
    SplitFirst(NameOf(e), '=', "0x" + Hex(e.value));
    SplitNone("0x" + Hex(e.value), '=');
  }

  /** A line has no blanks around it and is recognised as a variable. */
  lemma {:induction false} LineIsRecognised(e: Entry)
    ensures Strip(LineOf(e)) == LineOf(e) && StartsWith(LineOf(e), "in_")
  {
    var parts := NameParts(e);
    assert NameOf(e) == "in" + ['_'] + Join(parts[1..], '_');
    NumbersRoundTrip(e.value);
    var l := LineOf(e);
    assert l[..3] == "in_";
    assert l[0] == 'i' && l[|l| - 1] == Hex(e.value)[|Hex(e.value)| - 1];
  }
}
