/**
 Labels inside variable names: the base 32 encoding of RFC 4648, section 6, with a padding character
 that may occur in a name.
 */
module Base32 {
  import opened Wrappers
  import Printf

  type Bits = seq<bool>

  function TwoTo(w: nat): nat {
    if w == 0 then 1 else 2 * TwoTo(w - 1)
  }

  // ---- numbers and their bits, the most significant bit first ----

  function BitsOf(v: nat, w: nat): (bits: Bits)
    ensures |bits| == w
  {
    if w == 0 then [] else BitsOf(v / 2, w - 1) + [v % 2 == 1]
  }

  function NumberOf(bits: Bits): nat {
    if bits == [] then 0
    else 2 * NumberOf(bits[..|bits| - 1]) + if bits[|bits| - 1] then 1 else 0
  }

  lemma {:induction false} NumberOfBits(v: nat, w: nat)
    requires v < TwoTo(w)
    ensures NumberOf(BitsOf(v, w)) == v
  {
    if w > 0 {
      NumberOfBits(v / 2, w - 1);
      assert BitsOf(v, w)[..w - 1] == BitsOf(v / 2, w - 1);
    }
  }

  lemma {:induction false} BitsOfNumber(bits: Bits)
    ensures NumberOf(bits) < TwoTo(|bits|) && BitsOf(NumberOf(bits), |bits|) == bits
  {
    if bits != [] {
      var front := bits[..|bits| - 1];
      BitsOfNumber(front);
      assert NumberOf(bits) / 2 == NumberOf(front);
      assert bits == front + [bits[|bits| - 1]];
    }
  }

  // ---- regrouping bits ----

  function Pack(s: seq<nat>, w: nat): Bits {
    if s == [] then [] else BitsOf(s[0], w) + Pack(s[1..], w)
  }

  lemma {:induction false} LengthOfBytes(s: seq<nat>)
    ensures |Pack(s, 8)| == 8 * |s|
  {
    if s != [] {
      LengthOfBytes(s[1..]);
    }
  }

  /** The whole groups of `w` bits; what is left over is dropped. */
  function Cut(bits: Bits, w: nat): seq<nat>
    requires w > 0
  {
    if |bits| < w then [] else [NumberOf(bits[..w])] + Cut(bits[w..], w)
  }

  ghost predicate Fits(s: seq<nat>, w: nat) {
    forall i | 0 <= i < |s| :: s[i] < TwoTo(w)
  }

  lemma {:induction false} CutOfPack(s: seq<nat>, w: nat, rest: Bits)
    requires 0 < w && Fits(s, w) && |rest| < w
    ensures Cut(Pack(s, w) + rest, w) == s
  {
    if s == [] {
      assert Pack(s, w) + rest == rest;
    } else {
      var head, tail := BitsOf(s[0], w), Pack(s[1..], w) + rest;
      NumberOfBits(s[0], w);
      CutOfPack(s[1..], w, rest);
      assert Pack(s, w) + rest == head + tail;
      CutHead(head, tail, w);
    }
  }

  lemma {:induction false} CutHead(head: Bits, tail: Bits, w: nat)
    requires 0 < w == |head|
    ensures Cut(head + tail, w) == [NumberOf(head)] + Cut(tail, w)
  {
    assert (head + tail)[..w] == head && (head + tail)[w..] == tail;
  }

  ghost predicate Whole(bits: Bits, w: nat, n: nat)
    requires w > 0
  {
    |Cut(bits, w)| == n && Fits(Cut(bits, w), w) && Pack(Cut(bits, w), w) == bits
  }

  /** Bits that can be cut into groups without rest are the bits of the groups. */
  lemma {:induction false} PackOfSymbols(bits: Bits, n: nat)
    requires |bits| == 5 * n
    ensures Whole(bits, 5, n)
  {
    if n > 0 {
      var head, tail := bits[..5], bits[5..];
      PackOfSymbols(tail, n - 1);
      assert bits == head + tail;
      CutHead(head, tail, 5);
      BitsOfNumber(head);
      PackHead(NumberOf(head), Cut(tail, 5), 5);
    }
  }

  lemma {:induction false} PackHead(v: nat, s: seq<nat>, w: nat)
    ensures Pack([v] + s, w) == BitsOf(v, w) + Pack(s, w)
  {
    assert ([v] + s)[1..] == s;
  }

  // ---- bytes and symbols ----

  type Byte = v: nat | v < 256
  type Symbol = v: nat | v < 32

  /** The fewest zero bits that complete the last symbol. */
  function MissingBits(n: nat): (z: nat)
    ensures z < 5 && (n + z) % 5 == 0
  {
    (5 - n % 5) % 5
  }

  function SymbolsOf(data: seq<Byte>): seq<nat> {
    var bits := Pack(data, 8);
    Cut(bits + seq(MissingBits(|bits|), _ => false), 5)
  }

  lemma {:induction false} SymbolsRoundTrip(data: seq<Byte>)
    ensures Fits(SymbolsOf(data), 5) && Cut(Pack(SymbolsOf(data), 5), 8) == data
    ensures 5 * |SymbolsOf(data)| == 8 * |data| + MissingBits(8 * |data|)
  {
    var bits := Pack(data, 8);
    LengthOfBytes(data);
    var zeros := seq(MissingBits(|bits|), _ => false);
    PackOfSymbols(bits + zeros, (|bits| + |zeros|) / 5);
    assert TwoTo(8) == 256;
    CutOfPack(data, 8, zeros);
  }

  /** The number of symbols is one of those that the decoder accepts. */
  lemma {:induction false} PaddingIsLegal(n: nat, m: nat)
    requires 5 * m == 8 * n + MissingBits(8 * n)
    ensures PadLength(m) in {0, 1, 3, 4, 6}
  {
    if n >= 5 {
      OneMoreGroup(8 * (n - 5), m - 8);
      PaddingIsLegal(n - 5, m - 8);
    } else {
      assert n == 0 ==> m == 0;
      assert n == 1 ==> m == 2;
      assert n == 2 ==> m == 4;
      assert n == 3 ==> m == 5;
      assert n == 4 ==> m == 7;
    }
  }

  lemma {:induction false} OneMoreGroup(bits: nat, m: int)
    ensures MissingBits(bits + 40) == MissingBits(bits) && (m + 8) % 8 == m % 8
  {
    assert (bits + 40) % 5 == bits % 5;
  }

  /** The padding that completes a group of eight symbols. */
  function PadLength(m: nat): (p: nat)
    ensures p < 8 && (m + p) % 8 == 0
  {
    (8 - m % 8) % 8
  }

  // ---- text ----

  function CharOf(v: Symbol): (c: char)
    ensures 'A' <= c <= 'Z' || '2' <= c <= '7'
  {
    if v < 26 then ('A' as nat + v) as char else ('2' as nat + (v - 26)) as char
  }

  function SymbolOf(c: char): Option<Symbol> {
    if 'A' <= c <= 'Z' then Some(c as nat - 'A' as nat)
    else if '2' <= c <= '7' then Some(26 + c as nat - '2' as nat)
    else None
  }

  function TextOf(s: seq<nat>): (t: string)
    requires Fits(s, 5)
    ensures |t| == |s| && forall i | 0 <= i < |t| :: 'A' <= t[i] <= 'Z' || '2' <= t[i] <= '7'
  {
    assert TwoTo(5) == 32;
    seq(|s|, i requires 0 <= i < |s| => CharOf(s[i]))
  }

  function SymbolsIn(t: string): Option<seq<nat>> {
    if exists i | 0 <= i < |t| :: SymbolOf(t[i]).None? then None
    else Some(seq(|t|, i requires 0 <= i < |t| => SymbolOf(t[i]).value))
  }

  lemma {:induction false} SymbolsInText(s: seq<nat>)
    requires Fits(s, 5)
    ensures SymbolsIn(TextOf(s)) == Some(s)
  {
    assert TwoTo(5) == 32;
    var t := TextOf(s);
    assert forall i | 0 <= i < |t| :: SymbolOf(t[i]) == Some(s[i]);
    assert SymbolsIn(t).value == s;
  }

  function Replace(s: string, a: char, b: char): (t: string)
    ensures |t| == |s|
  {
    seq(|s|, i requires 0 <= i < |s| => if s[i] == a then b else s[i])
  }

  function StripPad(s: string): (t: string)
    ensures |t| <= |s|
  {
    if |s| > 0 && s[|s| - 1] == '=' then StripPad(s[..|s| - 1]) else s
  }

  lemma {:induction false} StripPadFill(s: string, n: nat)
    requires '=' !in s
    ensures StripPad(s + Printf.Fill('=', n)) == s
  {
    var t := s + Printf.Fill('=', n);
    if n == 0 {
      assert t == s;
    } else {
      assert t[..|t| - 1] == s + Printf.Fill('=', n - 1);
      StripPadFill(s, n - 1);
    }
  }

  function Standard(data: seq<Byte>): string {
    SymbolsRoundTrip(data);
    var s := SymbolsOf(data);
    TextOf(s) + Printf.Fill('=', PadLength(|s|))
  }

  function ReadStandard(t: string): Option<seq<nat>> {
    var core := StripPad(t);
    if |t| % 8 != 0 || |t| - |core| !in {0, 1, 3, 4, 6} || SymbolsIn(core).None? then None
    else Some(Cut(Pack(SymbolsIn(core).value, 5), 8))
  }

  /** The standard padding character is not allowed in a variable name. */
  function Encode(data: seq<Byte>): string {
    Replace(Standard(data), '=', 'z')
  }

  function Decode(t: string): Option<seq<nat>> {
    ReadStandard(Replace(t, 'z', '='))
  }

  /** Padded text reads as the symbols in front of the padding. */
  lemma {:induction false} ReadPadded(s: seq<nat>)
    requires Fits(s, 5) && PadLength(|s|) in {0, 1, 3, 4, 6}
    ensures ReadStandard(TextOf(s) + Printf.Fill('=', PadLength(|s|))) == Some(Cut(Pack(s, 5), 8))
  {
    SymbolsInText(s);
    StripPadFill(TextOf(s), PadLength(|s|));
  }

  lemma {:induction false} StandardRoundTrip(data: seq<Byte>)
    ensures ReadStandard(Standard(data)) == Some(data)
  {
    SymbolsRoundTrip(data);
    var s := SymbolsOf(data);
    PaddingIsLegal(|data|, |s|);
    ReadPadded(s);
  }

  lemma {:induction false} NoPadCharacter(data: seq<Byte>)
    ensures 'z' !in Standard(data)
  {
  }

  lemma {:induction false} ReplaceBack(s: string, a: char, b: char)
    requires b !in s
    ensures Replace(Replace(s, a, b), b, a) == s
  {
  }

  /** Decoding an encoded label gives the label back. */
  lemma {:induction false} RoundTrip(data: seq<Byte>)
    ensures Decode(Encode(data)) == Some(data)
  {
    StandardRoundTrip(data);
    NoPadCharacter(data);
    ReplaceBack(Standard(data), '=', 'z');
  }

  /** An encoded label contains no character that separates the parts of a line. */
  lemma {:induction false} LabelsAreNames(data: seq<Byte>)
    ensures forall i | 0 <= i < |Encode(data)| :: Encode(data)[i] !in "_=\n \t\r"
  {
    var t := Encode(data);
    forall i | 0 <= i < |t|
      ensures t[i] == 'z' || 'A' <= t[i] <= 'Z' || '2' <= t[i] <= '7'
    {
    }
  }

  // ---- what the text denotes ----

  /** The number that digits denote, the most significant one first. */
  function Horner(s: seq<nat>, b: nat): nat {
    if s == [] then 0 else Horner(s[..|s| - 1], b) * b + s[|s| - 1]
  }

  lemma {:induction false} NumberOfConcat(a: Bits, b: Bits)
    ensures NumberOf(a + b) == NumberOf(a) * TwoTo(|b|) + NumberOf(b)
  {
    if b == [] {
      assert a + b == a;
    } else {
      var front, last := b[..|b| - 1], b[|b| - 1];
      NumberOfConcat(a, front);
      assert (a + b)[..|a + b| - 1] == a + front;
      TwiceAsMuch(NumberOf(a), TwoTo(|front|), NumberOf(front));
    }
  }

  lemma {:induction false} TwiceAsMuch(a: nat, p: nat, c: nat)
    ensures 2 * (a * p + c) == a * (2 * p) + 2 * c
  {
  }

  lemma {:induction false} PackLast(s: seq<nat>, x: nat, w: nat)
    ensures Pack(s + [x], w) == Pack(s, w) + BitsOf(x, w)
  {
    if s == [] {
      assert s + [x] == [x] && [x][1..] == [];
    } else {
      PackLast(s[1..], x, w);
      assert (s + [x])[1..] == s[1..] + [x];
    }
  }

  lemma {:induction false} NumberOfPack(s: seq<nat>, w: nat)
    requires Fits(s, w)
    ensures NumberOf(Pack(s, w)) == Horner(s, TwoTo(w))
  {
    if s != [] {
      var front, last := s[..|s| - 1], s[|s| - 1];
      NumberOfPack(front, w);
      assert s == front + [last];
      PackLast(front, last, w);
      NumberOfConcat(Pack(front, w), BitsOf(last, w));
      NumberOfBits(last, w);
    }
  }

  lemma {:induction false} NumberOfZeros(n: nat)
    ensures NumberOf(seq(n, _ => false)) == 0
  {
    var zeros: Bits := seq(n, _ => false);
    if n > 0 {
      NumberOfZeros(n - 1);
      assert zeros[..n - 1] == seq(n - 1, _ => false);
    }
  }

  /** Bytes and symbols denote the same number, up to the zero bits that complete the last symbol. */
  lemma {:induction false} SymbolsDenote(data: seq<Byte>)
    ensures Horner(SymbolsOf(data), 32) == Horner(data, 256) * TwoTo(MissingBits(8 * |data|))
  {
    var bits := Pack(data, 8);
    LengthOfBytes(data);
    var zeros := seq(MissingBits(|bits|), _ => false);
    PackOfSymbols(bits + zeros, (|bits| + |zeros|) / 5);
    assert TwoTo(8) == 256 && TwoTo(5) == 32;
    NumberOfPack(SymbolsOf(data), 5);
    NumberOfConcat(bits, zeros);
    NumberOfZeros(|zeros|);
    NumberOfPack(data, 8);
  }

  /** The value of a character of the standard alphabet: letters from 0 on, then the digits from two to seven. */
  function LetterValue(c: char): nat {
    if 'A' <= c <= 'Z' then c as nat - 65 else if '2' <= c <= '7' then c as nat - 24 else 32
  }

  function Letters(t: string): (s: seq<nat>)
    ensures |s| == |t|
  {
    seq(|t|, i requires 0 <= i < |t| => LetterValue(t[i]))
  }

  lemma {:induction false} CharacterOfSymbol(v: Symbol)
    ensures LetterValue(CharOf(v)) == v && CharOf(v) != '='
  {
  }

  lemma {:induction false} PaddedText(s: seq<nat>, t: string)
    requires Fits(s, 5) && t == Replace(TextOf(s) + Printf.Fill('=', PadLength(|s|)), '=', 'z')
    ensures |s| <= |t| < |s| + 8 && |t| % 8 == 0
    ensures Letters(t[..|s|]) == s && (forall i | 0 <= i < |s| :: LetterValue(t[i]) < 32)
    ensures forall i | |s| <= i < |t| :: t[i] == 'z'
  {
    assert TwoTo(5) == 32;
    forall i | 0 <= i < |s|
      ensures LetterValue(t[i]) == s[i]
    {
      CharacterOfSymbol(s[i]);
      assert t[i] == CharOf(s[i]);
    }
  }

  /** As many symbols as the bits ask for, and the zero bits that complete the last one. */
  lemma {:induction false} SymbolCount(data: seq<Byte>, m: nat)
    requires m == |SymbolsOf(data)|
    ensures Fits(SymbolsOf(data), 5)
    ensures 8 * |data| <= 5 * m < 8 * |data| + 5 && MissingBits(8 * |data|) == 5 * m - 8 * |data|
  {
    SymbolsRoundTrip(data);
  }

  lemma {:induction false} TextOfSymbols(data: seq<Byte>)
    requires Fits(SymbolsOf(data), 5)
    ensures Encode(data) == Replace(TextOf(SymbolsOf(data)) + Printf.Fill('=', PadLength(|SymbolsOf(data)|)), '=', 'z')
  {
  }

  /**
   The text of a label: as many characters of the alphabet as its bits ask for, which denote the number that its bytes
   denote, and padding to a multiple of eight.
   */
  lemma {:induction false} EncodingDenotes(data: seq<Byte>, t: string) returns (m: nat)
    requires t == Encode(data)
    ensures 8 * |data| <= 5 * m < 8 * |data| + 5 && m <= |t| < m + 8 && |t| % 8 == 0
    ensures forall i | 0 <= i < m :: LetterValue(t[i]) < 32
    ensures forall i | m <= i < |t| :: t[i] == 'z'
    ensures Horner(Letters(t[..m]), 32) == Horner(data, 256) * TwoTo(5 * m - 8 * |data|)
  {
    m := |SymbolsOf(data)|;
    SymbolCount(data, m);
    TextOfSymbols(data);
    PaddedText(SymbolsOf(data), t);
    SymbolsDenote(data);
  }

  // ---- which texts are read, and as what ----

  predicate IsPad(c: char) {
    c == 'z' || c == '='
  }

  lemma {:induction false} StripPadIs(t: string, m: nat)
    requires m <= |t| && (m > 0 ==> t[m - 1] != '=') && forall i | m <= i < |t| :: t[i] == '='
    ensures StripPad(t) == t[..m]
  {
    if m < |t| {
      StripPadIs(t[..|t| - 1], m);
      assert t[..|t| - 1][..m] == t[..m];
    } else {
      assert t[..m] == t;
    }
  }

  lemma {:induction false} SymbolsAreLetters(t: string)
    ensures SymbolsIn(Replace(t, 'z', '=')) ==
            if forall i | 0 <= i < |t| :: LetterValue(t[i]) < 32 then Some(Letters(t)) else None
  {
    var u := Replace(t, 'z', '=');
    forall i | 0 <= i < |t|
      ensures SymbolOf(u[i]) == if LetterValue(t[i]) < 32 then Some(LetterValue(t[i])) else None
    {
    }
    if forall i | 0 <= i < |t| :: LetterValue(t[i]) < 32 {
      assert SymbolsIn(u).value == Letters(t);
    } else {
      var i :| 0 <= i < |t| && LetterValue(t[i]) >= 32;
      assert SymbolOf(u[i]).None?;
    }
  }

  lemma {:induction false} CutOfRest(bits: Bits, n: nat)
    requires 8 * n <= |bits| < 8 * n + 8
    ensures |Cut(bits, 8)| == n && Fits(Cut(bits, 8), 8) && Pack(Cut(bits, 8), 8) == bits[..8 * n]
  {
    if n > 0 {
      var head, tail := bits[..8], bits[8..];
      CutOfRest(tail, n - 1);
      assert bits == head + tail;
      CutHead(head, tail, 8);
      BitsOfNumber(head);
      PackHead(NumberOf(head), Cut(tail, 8), 8);
      assert bits[..8 * n] == head + tail[..8 * (n - 1)];
    }
  }

  lemma {:induction false} NumberIsBounded(bits: Bits)
    ensures NumberOf(bits) < TwoTo(|bits|)
  {
    if bits != [] {
      NumberIsBounded(bits[..|bits| - 1]);
    }
  }

  /** Up to the last `k` bits, `n` is `v`. */
  ghost predicate LeadingBits(n: nat, v: nat, k: nat) {
    v * TwoTo(k) <= n < v * TwoTo(k) + TwoTo(k)
  }

  lemma {:induction false} LengthOfSymbols(s: seq<nat>)
    ensures |Pack(s, 5)| == 5 * |s|
  {
    if s != [] {
      LengthOfSymbols(s[1..]);
    }
  }

  /** Bytes cut from symbols denote the same number, up to the bits that do not make a byte. */
  lemma {:induction false} BytesDenote(s: seq<nat>, n: nat)
    requires Fits(s, 5) && n == 5 * |s| / 8
    ensures var data := Cut(Pack(s, 5), 8);
            && |data| == n && (forall i | 0 <= i < n :: data[i] < 256)
            && LeadingBits(Horner(s, 32), Horner(data, 256), 5 * |s| - 8 * n)
  {
    var bits := Pack(s, 5);
    LengthOfSymbols(s);
    CutOfRest(bits, n);
    var data, whole, rest := Cut(bits, 8), bits[..8 * n], bits[8 * n..];
    assert TwoTo(8) == 256 && TwoTo(5) == 32;
    NumberOfPack(s, 5);
    NumberOfPack(data, 8);
    assert bits == whole + rest;
    NumberOfConcat(whole, rest);
    NumberIsBounded(rest);
  }

  lemma {:induction false} DecodesLetters(t: string, m: nat)
    requires m <= |t| && (m > 0 ==> !IsPad(t[m - 1])) && forall i | m <= i < |t| :: IsPad(t[i])
    ensures Decode(t) ==
            if |t| % 8 == 0 && |t| - m in {0, 1, 3, 4, 6} && forall i | 0 <= i < m :: LetterValue(t[i]) < 32
            then Some(Cut(Pack(Letters(t[..m]), 5), 8)) else None
  {
    var u := Replace(t, 'z', '=');
    StripPadIs(u, m);
    assert u[..m] == Replace(t[..m], 'z', '=');
    SymbolsAreLetters(t[..m]);
    assert forall i | 0 <= i < m :: t[..m][i] == t[i];
  }

  /**
   A text is read if and only if it is padded, in one of five ways, to a multiple of eight and otherwise made of the
   alphabet; its bytes are the number that it denotes, without the bits that do not make a byte.
   */
  lemma {:induction false} DecodeExactly(t: string, m: nat)
    requires m <= |t| && (m > 0 ==> !IsPad(t[m - 1])) && forall i | m <= i < |t| :: IsPad(t[i])
    ensures Decode(t).Some? <==>
            |t| % 8 == 0 && |t| - m in {0, 1, 3, 4, 6} && forall i | 0 <= i < m :: LetterValue(t[i]) < 32
    ensures Decode(t).Some? ==>
              var data, n := Decode(t).value, 5 * m / 8;
              && |data| == n && (forall i | 0 <= i < n :: data[i] < 256)
              && LeadingBits(Horner(Letters(t[..m]), 32), Horner(data, 256), 5 * m - 8 * n)
  {
    DecodesLetters(t, m);
    if Decode(t).Some? {
      assert TwoTo(5) == 32;
      BytesDenote(Letters(t[..m]), 5 * m / 8);
    }
  }
}
