/**
 * The handful of Python built-ins on strings and integers that the handle
 * clients rely on, with Python's own semantics: str.replace (every
 * occurrence, left to right, without rescanning what was inserted),
 * str.lstrip with a set of characters, str.split(c)[0], slicing with
 * negative and out-of-range bounds, str(int), hex(), bin(), int(s, 16),
 * int(s, 2) (ASCII digits only), str.zfill, binascii.hexlify and binascii.unhexlify.
 */
module PyStr {
  import opened Wrappers

  newtype byte = x: int | 0 <= x < 256

  /** A Python value that is either a str or an int (indices may be given as either). */
  datatype Scalar = SText(s: string) | SInt(n: int)

  /** The keyword arguments of a **args call: a str, or None given explicitly. */
  type Kwargs = map<string, Option<string>>

  /** KeyError: a keyword argument that was read but not given. */
  datatype MissingKey = MissingKey(key: string)

  // ---------------------------------------------------------------------
  // str.replace(pat, rep)
  // ---------------------------------------------------------------------

  /** s.replace(pat, rep): every non-overlapping occurrence, scanning left to right. */
  function ReplaceAll(s: string, pat: string, rep: string): string
    requires |pat| > 0
    decreases |s|
  {
    if |s| < |pat| then s
    else if s[..|pat|] == pat then rep + ReplaceAll(s[|pat|..], pat, rep)
    else [s[0]] + ReplaceAll(s[1..], pat, rep)
  }

  /** pat occurs somewhere in s. */
  ghost predicate Occurs(s: string, pat: string)
  {
    exists i :: MatchAt(s, pat, i)
  }

  /** pat occurs in s at position i. */
  predicate MatchAt(s: string, pat: string, i: int)
  {
    0 <= i && i + |pat| <= |s| && s[i..i + |pat|] == pat
  }

  /**
   * No occurrence of a pattern of at least two characters can start inside p,
   * whatever follows p: every character of p that equals pat[0] is followed,
   * still inside p, by a character other than pat[1].
   */
  predicate NoMatchStart(p: string, pat: string)
    requires |pat| >= 2
  {
    forall i {:trigger p[i]} :: 0 <= i < |p| ==> p[i] != pat[0] || (i + 1 < |p| && p[i + 1] != pat[1])
  }

  /** A prefix in which no occurrence can start is copied unchanged. */
  lemma {:induction false} ReplaceAllPassThrough(p: string, q: string, pat: string, rep: string)
    requires |pat| >= 2 && NoMatchStart(p, pat)
    ensures ReplaceAll(p + q, pat, rep) == p + ReplaceAll(q, pat, rep)
    decreases |p|
  {
    if p == [] {
      assert p + q == q;
    } else {
      var s := p + q;
      assert s[1..] == p[1..] + q;
      if |s| < |pat| {
        assert ReplaceAll(s, pat, rep) == s;
        assert ReplaceAll(q, pat, rep) == q;
      } else {
        NoMatchAtFront(p, q, pat);
        NoMatchStartTail(p, pat);
        ReplaceAllPassThrough(p[1..], q, pat, rep);
        assert ReplaceAll(s, pat, rep) == [s[0]] + ReplaceAll(s[1..], pat, rep);
        assert [s[0]] + p[1..] == p;
        assert [s[0]] + (p[1..] + ReplaceAll(q, pat, rep)) == ([s[0]] + p[1..]) + ReplaceAll(q, pat, rep);
      }
    }
  }

  /** Where no occurrence can start in p, none starts at the front of p + q. */
  lemma NoMatchAtFront(p: string, q: string, pat: string)
    requires |pat| >= 2 && NoMatchStart(p, pat) && p != [] && |p + q| >= |pat|
    ensures (p + q)[..|pat|] != pat
  {
    var s := p + q;
    assert p[0] != pat[0] || (1 < |p| && p[1] != pat[1]);
    assert s[0] == p[0];
    if |p| > 1 { assert s[1] == p[1]; }
    assert s[..|pat|][0] == s[0] && s[..|pat|][1] == s[1];
  }

  /** No occurrence can start in what follows the first character either. */
  lemma NoMatchStartTail(p: string, pat: string)
    requires |pat| >= 2 && NoMatchStart(p, pat) && p != []
    ensures NoMatchStart(p[1..], pat)
  {
    forall i | 0 <= i < |p[1..]|
      ensures p[1..][i] != pat[0] || (i + 1 < |p[1..]| && p[1..][i + 1] != pat[1])
    {
      assert p[1..][i] == p[i + 1];
      assert p[i + 1] != pat[0] || (i + 2 < |p| && p[i + 2] != pat[1]);
      if i + 2 < |p| { assert p[1..][i + 1] == p[i + 2]; }
    }
  }

  /** An occurrence at the very front is replaced. */
  lemma ReplaceAllFront(q: string, pat: string, rep: string)
    requires |pat| > 0
    ensures ReplaceAll(pat + q, pat, rep) == rep + ReplaceAll(q, pat, rep)
  {
    var s := pat + q;
    assert s[..|pat|] == pat;
    assert s[|pat|..] == q;
  }

  /** A stretch where no occurrence can start is left as it is. */
  lemma ReplaceAllNoStart(p: string, pat: string, rep: string)
    requires |pat| >= 2 && NoMatchStart(p, pat)
    ensures ReplaceAll(p, pat, rep) == p
  {
    assert p + [] == p;
    ReplaceAllPassThrough(p, [], pat, rep);
    assert ReplaceAll([], pat, rep) == [];
  }

  lemma Assoc(a: string, b: string, c: string)
    ensures a + (b + c) == a + b + c
  {
  }

  /** Regrouping a + (b + x) + c, the shape a replacement leaves behind. */
  lemma Regroup(a: string, b: string, x: string, c: string)
    ensures a + (b + x) + c == (a + b) + x + c
    ensures a + (b + x) + "" == a + b + x
  {
  }

  /** A single occurrence between two stretches where none can start is the only one replaced. */
  lemma ReplaceOnce(front: string, pat: string, back: string, rep: string)
    requires |pat| >= 2 && NoMatchStart(front, pat) && NoMatchStart(back, pat)
    ensures ReplaceAll(front + pat + back, pat, rep) == front + rep + back
  {
    var x := pat + back;
    Assoc(front, pat, back);
    ReplaceAllPassThrough(front, x, pat, rep);
    ReplaceAllFront(back, pat, rep);
    ReplaceAllNoStart(back, pat, rep);
    Assoc(front, rep, back);
  }

  /** An occurrence after a stretch where none can start, followed by another such stretch and any text. */
  lemma ReplaceThenRest(front: string, pat: string, mid: string, tail: string, rep: string)
    requires |pat| >= 2 && NoMatchStart(front, pat) && NoMatchStart(mid, pat)
    ensures ReplaceAll(front + pat + (mid + tail), pat, rep) == front + rep + mid + ReplaceAll(tail, pat, rep)
  {
    var x := pat + (mid + tail);
    Assoc(front, pat, mid + tail);
    ReplaceAllPassThrough(front, x, pat, rep);
    ReplaceAllFront(mid + tail, pat, rep);
    ReplaceAllPassThrough(mid, tail, pat, rep);
    var y := ReplaceAll(tail, pat, rep);
    Assoc(front, rep, mid + y);
    Assoc(front + rep, mid, y);
  }

  /** A string in which the pattern does not occur is left as it is. */
  lemma {:induction false} ReplaceAllAbsent(s: string, pat: string, rep: string)
    requires |pat| > 0 && !Occurs(s, pat)
    ensures ReplaceAll(s, pat, rep) == s
    decreases |s|
  {
    if |s| >= |pat| {
      assert s[0..|pat|] == s[..|pat|];
      assert !MatchAt(s, pat, 0);
      forall i ensures !MatchAt(s[1..], pat, i) {
        if 0 <= i && i + |pat| <= |s| - 1 {
          assert s[1..][i..i + |pat|] == s[i + 1..i + 1 + |pat|];
          assert !MatchAt(s, pat, i + 1);
        }
      }
      ReplaceAllAbsent(s[1..], pat, rep);
      assert [s[0]] + s[1..] == s;
    }
  }

  // ---------------------------------------------------------------------
  // lstrip, split, slicing, str(int)
  // ---------------------------------------------------------------------

  /** s.lstrip(chars): drops every leading character that is in the SET chars. */
  function LStrip(s: string, chars: string): (r: string)
    ensures |r| <= |s| && r == s[|s| - |r|..]
    ensures r != [] ==> r[0] !in chars
    ensures forall i :: 0 <= i < |s| - |r| ==> s[i] in chars
    decreases |s|
  {
    if s != [] && s[0] in chars then LStrip(s[1..], chars) else s
  }

  /** s.split(c)[0]: the text before the first c, or all of s when c does not occur. */
  function BeforeFirst(s: string, c: char): (r: string)
    ensures c !in r
    ensures |r| <= |s| && r == s[..|r|]
    ensures r == s || s[|r|] == c
    decreases |s|
  {
    if s == [] then []
    else if s[0] == c then []
    else [s[0]] + BeforeFirst(s[1..], c)
  }

  /** (p + c + rest).split(c)[0] == p when c does not occur in p. */
  lemma {:induction false} BeforeFirstOfJoin(p: string, c: char, rest: string)
    requires c !in p
    ensures BeforeFirst(p + [c] + rest, c) == p
  {
    if p != [] {
      assert (p + [c] + rest)[1..] == p[1..] + [c] + rest;
      BeforeFirstOfJoin(p[1..], c, rest);
      assert [p[0]] + p[1..] == p;
    }
  }

  /** Python's normalisation of one slice bound. */
  function SliceBound(i: int, n: nat): (k: nat)
    ensures k <= n
  {
    if i < 0 then (if i + n < 0 then 0 else i + n) else if i > n then n else i
  }

  /** s[i:j] with Python's rules for negative and out-of-range bounds. */
  function PySlice(s: string, i: int, j: int): string
  {
    var a := SliceBound(i, |s|);
    var b := SliceBound(j, |s|);
    if b <= a then [] else s[a..b]
  }

  function DecimalDigit(d: nat): char
    requires d < 10
  {
    ('0' as int + d) as char
  }

  /** str(n) for n >= 0. */
  function NatToDecimal(n: nat): (r: string)
    ensures |r| > 0 && forall i :: 0 <= i < |r| ==> '0' <= r[i] <= '9'
  {
    if n < 10 then [DecimalDigit(n)] else NatToDecimal(n / 10) + [DecimalDigit(n % 10)]
  }

  /** str(n). */
  function IntToDecimal(n: int): string
  {
    if n < 0 then "-" + NatToDecimal(-n) else NatToDecimal(n)
  }

  /** str(x) of a str or an int. */
  function StrOf(x: Scalar): string
  {
    match x
    case SText(s) => s
    case SInt(n) => IntToDecimal(n)
  }

  // ---------------------------------------------------------------------
  // hex(), int(s, 16), bin(), int(s, 2), zfill
  // ---------------------------------------------------------------------

  function HexDigit(d: nat): (c: char)
    requires d < 16
    ensures IsHexDigit(c)
  {
    if d < 10 then ('0' as int + d) as char else ('a' as int + d - 10) as char
  }

  predicate IsHexDigit(c: char)
  {
    ('0' <= c <= '9') || ('a' <= c <= 'f') || ('A' <= c <= 'F')
  }

  function HexDigitValue(c: char): (v: nat)
    requires IsHexDigit(c)
    ensures v < 16
  {
    if '0' <= c <= '9' then c as int - '0' as int
    else if 'a' <= c <= 'f' then c as int - 'a' as int + 10
    else c as int - 'A' as int + 10
  }

  predicate AllHex(s: string)
  {
    forall i :: 0 <= i < |s| ==> IsHexDigit(s[i])
  }

  /** The value of a string of hexadecimal digits, most significant first. */
  function HexValue(s: string): nat
    requires AllHex(s)
  {
    if s == [] then 0 else HexValue(s[..|s| - 1]) * 16 + HexDigitValue(s[|s| - 1])
  }

  /**
   * int(s, 16) on bare hex digits; anything else is ValueError (None). The
   * sign, 0x prefix, whitespace and underscores Python would also accept
   * are not read.
   */
  function ParseHex(s: string): Option<nat>
  {
    if s != [] && AllHex(s) then Some(HexValue(s)) else None
  }

  /** hex(n)[2:] for n >= 0: lower-case, no padding. */
  function ToHex(n: nat): (r: string)
    ensures r != [] && AllHex(r)
  {
    if n < 16 then [HexDigit(n)] else ToHex(n / 16) + [HexDigit(n % 16)]
  }

  /** hex(n)[2:] for any int: Python writes '-0x…', so a negative n leaves 'x…'. */
  function PyHexTail(n: int): string
  {
    if n >= 0 then ToHex(n) else "x" + ToHex(-n)
  }

  function Zeros(k: nat): (r: string)
    ensures |r| == k && forall i :: 0 <= i < k ==> r[i] == '0'
  {
    if k == 0 then [] else Zeros(k - 1) + ['0']
  }

  function Pow(b: nat, k: nat): nat
  {
    if k == 0 then 1 else b * Pow(b, k - 1)
  }

  lemma {:induction false} HexValueOfZeros(k: nat)
    ensures AllHex(Zeros(k)) && HexValue(Zeros(k)) == 0
  {
    if k > 0 {
      HexValueOfZeros(k - 1);
      assert Zeros(k)[..k - 1] == Zeros(k - 1);
    }
  }

  /** Leading zeros do not change the value of a hex string. */
  lemma {:induction false} HexValueLeadingZeros(k: nat, t: string)
    requires AllHex(t)
    ensures AllHex(Zeros(k) + t) && HexValue(Zeros(k) + t) == HexValue(t)
    decreases |t|
  {
    if t == [] {
      assert Zeros(k) + t == Zeros(k);
      HexValueOfZeros(k);
    } else {
      var s := Zeros(k) + t;
      assert s[..|s| - 1] == Zeros(k) + t[..|t| - 1];
      HexValueLeadingZeros(k, t[..|t| - 1]);
    }
  }

  lemma {:induction false} HexValueToHex(n: nat)
    ensures HexValue(ToHex(n)) == n
  {
    if n >= 16 {
      HexValueToHex(n / 16);
      var s := ToHex(n);
      assert s[..|s| - 1] == ToHex(n / 16);
    }
  }

  /** int(zeros + hex(n)[2:], 16) == n. */
  lemma HexRoundTrip(k: nat, n: nat)
    ensures ParseHex(Zeros(k) + ToHex(n)) == Some(n)
  {
    HexValueLeadingZeros(k, ToHex(n));
    HexValueToHex(n);
  }

  lemma {:induction false} ToHexLength(n: nat, k: nat)
    requires k >= 1 && n < Pow(16, k)
    ensures |ToHex(n)| <= k
  {
    if n >= 16 {
      assert k >= 2;
      ToHexLength(n / 16, k - 1);
    }
  }

  lemma ToHexThreeDigits(n: nat)
    requires 256 <= n < 4096
    ensures |ToHex(n)| == 3
  {
    assert |ToHex(n / 16 / 16)| == 1;
    assert n / 16 >= 16;
    assert |ToHex(n / 16)| == 2;
  }

  predicate AllBinary(s: string)
  {
    forall i :: 0 <= i < |s| ==> s[i] == '0' || s[i] == '1'
  }

  function BinValue(s: string): nat
    requires AllBinary(s)
  {
    if s == [] then 0 else BinValue(s[..|s| - 1]) * 2 + (if s[|s| - 1] == '1' then 1 else 0)
  }

  /**
   * The whitespace int() strips from both ends of its argument: the ASCII
   * tab, line feed, vertical tab, form feed, carriage return and space, and
   * the non-ASCII characters str.isspace accepts. The ASCII separators
   * U+001C to U+001F are str.isspace characters that int() keeps.
   */
  predicate IntSpace(c: char)
  {
    ('\t' <= c <= '\r') || c == ' ' || c == '\U{85}' || c == '\U{a0}' || c == '\U{1680}'
    || ('\U{2000}' <= c <= '\U{200a}') || c == '\U{2028}' || c == '\U{2029}' || c == '\U{202f}'
    || c == '\U{205f}' || c == '\U{3000}'
  }

  /** The argument of int() with its leading and trailing whitespace removed. */
  function Strip(s: string): string
  {
    RStrip(LStripSpace(s))
  }

  function LStripSpace(s: string): string
  {
    if s != [] && IntSpace(s[0]) then LStripSpace(s[1..]) else s
  }

  function RStrip(s: string): string
  {
    if s != [] && IntSpace(s[|s| - 1]) then RStrip(s[..|s| - 1]) else s
  }

  /** The digits after the sign: a leading 0b or 0B goes, and one underscore right after it. */
  function AfterBinaryPrefix(u: string): string
  {
    if |u| >= 2 && u[0] == '0' && (u[1] == 'b' || u[1] == 'B') then
      (if |u| >= 3 && u[2] == '_' then u[3..] else u[2..])
    else u
  }

  predicate IsBit(c: char)
  {
    c == '0' || c == '1'
  }

  /** Binary digits, with single underscores between two digits allowed. */
  predicate UnderscoredBinary(d: string)
  {
    d != [] && IsBit(d[0]) && UnderscoredTail(d[1..])
  }

  /** What may follow a digit: nothing, a digit, or one underscore and a digit, and so on. */
  predicate UnderscoredTail(r: string)
    decreases |r|
  {
    r == []
    || (IsBit(r[0]) && UnderscoredTail(r[1..]))
    || (|r| >= 2 && r[0] == '_' && IsBit(r[1]) && UnderscoredTail(r[2..]))
  }

  /** The binary digits of s, in order; every other character is dropped. */
  function Bits(s: string): (r: string)
    ensures AllBinary(r)
  {
    if s == [] then [] else (if IsBit(s[0]) then [s[0]] else []) + Bits(s[1..])
  }

  /**
   * int(s, 2): surrounding whitespace is stripped, then an optional sign,
   * an optional 0b/0B prefix (with one underscore allowed after it) and
   * binary digits with single underscores between them; anything else
   * raises ValueError (None). Non-ASCII decimal digits are not accepted.
   */
  function ParseBinary(s: string): Option<int>
  {
    var t := Strip(s);
    var signed := t != [] && (t[0] == '-' || t[0] == '+');
    var d := AfterBinaryPrefix(if signed then t[1..] else t);
    if UnderscoredBinary(d) then
      (var v: int := BinValue(Bits(d)); Some(if signed && t[0] == '-' then -v else v))
    else None
  }

  lemma {:induction false} BitsOfBinary(s: string)
    requires AllBinary(s)
    ensures Bits(s) == s
  {
    if s != [] {
      BitsOfBinary(s[1..]);
    }
  }

  lemma {:induction false} BinaryTail(s: string)
    requires AllBinary(s)
    ensures UnderscoredTail(s)
  {
    if s != [] {
      BinaryTail(s[1..]);
    }
  }

  /** A plain numeral of binary digits is read as its value. */
  lemma PlainBinary(s: string)
    requires s != [] && AllBinary(s)
    ensures ParseBinary(s) == Some(BinValue(s))
  {
    assert LStripSpace(s) == s;
    assert RStrip(s) == s;
    assert AfterBinaryPrefix(s) == s;
    BinaryTail(s[1..]);
    BitsOfBinary(s);
  }

  lemma FifteenAndFive()
    ensures AllBinary("1111") && BinValue("1111") == 15
    ensures AllBinary("101") && BinValue("101") == 5
  {
    assert "1111"[..3] == "111" && "111"[..2] == "11" && "11"[..1] == "1" && "1"[..0] == "";
    assert "101"[..2] == "10" && "10"[..1] == "1";
  }

  /** int(…, 2) accepts a 0b or 0B prefix after the sign, with one underscore after it. */
  lemma BinaryPrefixAccepted()
    ensures ParseBinary("0b1111") == Some(15)
    ensures ParseBinary("-0B_101") == Some(-5)
  {
    FifteenAndFive();
    assert Strip("0b1111") == "0b1111";
    assert AfterBinaryPrefix("0b1111") == "1111";
    BitsOfBinary("1111");
    assert Strip("-0B_101") == "-0B_101";
    assert AfterBinaryPrefix("0B_101") == "101";
    BitsOfBinary("101");
  }

  /** int(…, 2) strips surrounding whitespace. */
  lemma SurroundingSpaceAccepted()
    ensures ParseBinary(" 1111\n") == Some(15)
  {
    assert LStripSpace(" 1111\n") == "1111\n";
    assert RStrip("1111\n") == "1111";
    FifteenAndFive();
    PlainBinary("1111");
  }

  /** int(…, 2) keeps an ASCII file separator, so the digits after it are not read. */
  lemma SeparatorNotStripped()
    ensures ParseBinary("\U{1c}1") == None
  {
    assert Strip("\U{1c}1") == "\U{1c}1";
    assert AfterBinaryPrefix("\U{1c}1") == "\U{1c}1";
  }

  /** int(…, 2) reads single underscores between digits. */
  lemma UnderscoresAccepted()
    ensures ParseBinary("11_11") == Some(15)
  {
    assert Strip("11_11") == "11_11";
    assert AfterBinaryPrefix("11_11") == "11_11";
    FifteenAndFive();
    assert Bits("11_11") == "1111" by {
      BitsOfBinary("11");
      assert Bits("_11") == "11";
    }
  }

  /** A bare prefix, or two underscores after it, raise ValueError. */
  lemma MalformedPrefixRejected()
    ensures ParseBinary("0b").None? && ParseBinary("0b__1").None?
  {
    assert Strip("0b") == "0b";
    assert AfterBinaryPrefix("0b") == "";
    assert Strip("0b__1") == "0b__1";
    assert AfterBinaryPrefix("0b__1") == "_1";
  }

  /** Doubled, leading or trailing underscores raise ValueError. */
  lemma MalformedUnderscoresRejected()
    ensures ParseBinary("1__1").None? && ParseBinary("_1").None? && ParseBinary("1_").None?
  {
    assert Strip("1__1") == "1__1";
    assert AfterBinaryPrefix("1__1") == "1__1";
    assert !UnderscoredTail("__1");
    assert Strip("_1") == "_1";
    assert AfterBinaryPrefix("_1") == "_1";
    assert Strip("1_") == "1_";
    assert AfterBinaryPrefix("1_") == "1_";
    assert !UnderscoredTail("_");
  }

  /** Whitespace between the sign and the digits raises ValueError. */
  lemma SpaceAfterSignRejected()
    ensures ParseBinary("- 1").None?
  {
    assert Strip("- 1") == "- 1";
    assert AfterBinaryPrefix(" 1") == " 1";
  }

  function BinDigit(d: nat): char
    requires d < 2
  {
    if d == 0 then '0' else '1'
  }

  /** bin(n)[2:] for n >= 0. */
  function ToBinary(n: nat): (r: string)
    ensures r != []
  {
    if n < 2 then [BinDigit(n)] else ToBinary(n / 2) + [BinDigit(n % 2)]
  }

  /** s.zfill(w) for a string without a sign. */
  function ZFill(s: string, w: nat): string
  {
    if |s| < w then Zeros(w - |s|) + s else s
  }

  /** The w-digit binary numeral of n (the bits above w are dropped). */
  function FixedBinary(n: nat, w: nat): (r: string)
    ensures |r| == w
  {
    if w == 0 then [] else FixedBinary(n / 2, w - 1) + [BinDigit(n % 2)]
  }

  lemma {:induction false} BinValueBound(s: string)
    requires AllBinary(s)
    ensures BinValue(s) < Pow(2, |s|)
  {
    if s != [] { BinValueBound(s[..|s| - 1]); }
  }

  lemma {:induction false} FixedBinaryOfValue(s: string)
    requires AllBinary(s)
    ensures FixedBinary(BinValue(s), |s|) == s
  {
    if s != [] {
      var init := s[..|s| - 1];
      FixedBinaryOfValue(init);
      assert s == init + [s[|s| - 1]];
    }
  }

  lemma {:induction false} FixedBinaryZero(w: nat)
    ensures FixedBinary(0, w) == Zeros(w)
  {
    if w > 0 { FixedBinaryZero(w - 1); }
  }

  lemma {:induction false} ToBinaryLength(n: nat, w: nat)
    requires w >= 1 && n < Pow(2, w)
    ensures |ToBinary(n)| <= w
  {
    if n >= 2 { ToBinaryLength(n / 2, w - 1); }
  }

  lemma {:induction false} ZFillToBinary(n: nat, w: nat)
    requires w >= 1 && n < Pow(2, w)
    ensures ZFill(ToBinary(n), w) == FixedBinary(n, w)
  {
    if n < 2 {
      FixedBinaryZero(w - 1);
      assert FixedBinary(n / 2, w - 1) == Zeros(w - 1);
    } else {
      ToBinaryLength(n / 2, w - 1);
      ZFillToBinary(n / 2, w - 1);
      var t := ToBinary(n / 2);
      assert ToBinary(n) == t + [BinDigit(n % 2)];
      if |t| < w - 1 {
        assert Zeros(w - |t| - 1) + (t + [BinDigit(n % 2)]) == (Zeros(w - 1 - |t|) + t) + [BinDigit(n % 2)];
      }
    }
  }

  /** bin(int(p, 2))[2:].zfill(|p|) == p for a string of binary digits. */
  lemma BinaryRoundTrip(p: string)
    requires |p| >= 1 && AllBinary(p)
    ensures ZFill(ToBinary(BinValue(p)), |p|) == p
  {
    BinValueBound(p);
    ZFillToBinary(BinValue(p), |p|);
    FixedBinaryOfValue(p);
  }

  // ---------------------------------------------------------------------
  // binascii.hexlify / unhexlify
  // ---------------------------------------------------------------------

  function HexOfByte(b: byte): string
  {
    [HexDigit(b as nat / 16), HexDigit(b as nat % 16)]
  }

  /** binascii.hexlify(bs), as text. */
  function HexOfBytes(bs: seq<byte>): (r: string)
    ensures |r| == 2 * |bs| && AllHex(r)
  {
    if bs == [] then [] else HexOfByte(bs[0]) + HexOfBytes(bs[1..])
  }

  /** str.encode('utf-8') of one character: one to four bytes by its code point. */
  function Utf8Char(c: char): (r: seq<byte>)
    ensures 1 <= |r| <= 4
    ensures c as int < 0x80 ==> r == [c as int as byte]
  {
    var n := c as int;
    if n < 0x80 then [n as byte]
    else if n < 0x800 then [(0xC0 + n / 0x40) as byte, (0x80 + n % 0x40) as byte]
    else if n < 0x10000 then
      [(0xE0 + n / 0x1000) as byte, (0x80 + n / 0x40 % 0x40) as byte, (0x80 + n % 0x40) as byte]
    else
      [(0xF0 + n / 0x40000) as byte, (0x80 + n / 0x1000 % 0x40) as byte,
       (0x80 + n / 0x40 % 0x40) as byte, (0x80 + n % 0x40) as byte]
  }

  /** str.encode('utf-8'). */
  function Utf8(s: string): (r: seq<byte>)
    ensures |s| <= |r| <= 4 * |s|
  {
    if s == [] then [] else Utf8Char(s[0]) + Utf8(s[1..])
  }

  /** binascii.unhexlify(s): odd length or a non-hex digit raise (None). */
  function Unhexlify(s: string): Option<seq<byte>>
    decreases |s|
  {
    if s == [] then Some([])
    else if |s| == 1 || !IsHexDigit(s[0]) || !IsHexDigit(s[1]) then None
    else match Unhexlify(s[2..])
      case None => None
      case Some(rest) => Some([(HexDigitValue(s[0]) * 16 + HexDigitValue(s[1])) as byte] + rest)
  }

  lemma {:induction false} UnhexlifyHexOfBytes(bs: seq<byte>)
    ensures Unhexlify(HexOfBytes(bs)) == Some(bs)
  {
    if bs != [] {
      var s := HexOfBytes(bs);
      assert s[2..] == HexOfBytes(bs[1..]);
      UnhexlifyHexOfBytes(bs[1..]);
      assert [bs[0]] + bs[1..] == bs;
    }
  }
}
