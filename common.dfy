/** The optional value used wherever the browser code has `undefined` or `null`. */
module Options {
  datatype Option<+T> = None | Some(value: T)
}

/**
 * Character classes of the JavaScript regular expressions and string
 * methods the tools use: `\s`, `\w`, `[a-f\d]` with the `i` flag, and the
 * case mappings restricted to ASCII letters.
 */
module Chars {

  /** `\s` in a JavaScript regular expression, which is also the set `trim()` strips. */
  predicate IsSpace(c: char)
  {
    || c == ' ' || c == '\t' || c == '\n' || c == '\r'
    || c == '\U{000B}' || c == '\U{000C}'
    || c == '\U{00A0}' || c == '\U{1680}'
    || ('\U{2000}' <= c <= '\U{200A}')
    || c == '\U{2028}' || c == '\U{2029}' || c == '\U{202F}'
    || c == '\U{205F}' || c == '\U{3000}' || c == '\U{FEFF}'
  }

  predicate IsDigit(c: char) { '0' <= c <= '9' }
  predicate IsLower(c: char) { 'a' <= c <= 'z' }
  predicate IsUpper(c: char) { 'A' <= c <= 'Z' }

  /** `\w` in a JavaScript regular expression without the `u` flag. */
  predicate IsWordChar(c: char)
  {
    IsDigit(c) || IsLower(c) || IsUpper(c) || c == '_'
  }

  function ToUpper(c: char): (u: char)
    ensures IsLower(c) ==> IsUpper(u) && u as int == c as int - 32
    ensures !IsLower(c) ==> u == c
  {
    if IsLower(c) then (c as int - 32) as char else c
  }

  function ToLower(c: char): (l: char)
    ensures IsUpper(c) ==> IsLower(l) && l as int == c as int + 32
    ensures !IsUpper(c) ==> l == c
  {
    if IsUpper(c) then (c as int + 32) as char else c
  }

  /** `String.prototype.toUpperCase`, on ASCII letters. */
  function UpperString(s: string): (r: string)
    ensures |r| == |s|
    ensures forall i :: 0 <= i < |s| ==> r[i] == ToUpper(s[i])
  {
    seq(|s|, i requires 0 <= i < |s| => ToUpper(s[i]))
  }

  /** `String.prototype.toLowerCase`, on ASCII letters. */
  function LowerString(s: string): (r: string)
    ensures |r| == |s|
    ensures forall i :: 0 <= i < |s| ==> r[i] == ToLower(s[i])
  {
    seq(|s|, i requires 0 <= i < |s| => ToLower(s[i]))
  }

  /** Upper-casing twice is upper-casing once, and leaves no lower-case ASCII letter. */
  lemma UpperStringIdempotent(s: string)
    ensures UpperString(UpperString(s)) == UpperString(s)
    ensures forall i :: 0 <= i < |s| ==> !IsLower(UpperString(s)[i])
  {
  }

  /** Lower-casing twice is lower-casing once, and leaves no upper-case ASCII letter. */
  lemma LowerStringIdempotent(s: string)
    ensures LowerString(LowerString(s)) == LowerString(s)
    ensures forall i :: 0 <= i < |s| ==> !IsUpper(LowerString(s)[i])
  {
  }
}

/**
 * Hexadecimal text as the browser writes it: `Number.prototype.toString(16)`
 * (lower-case digits, a leading `-` for negatives) and `padStart(2, "0")`.
 * Both the colour picker and the hash page format bytes this way.
 */
module HexText {
  import opened Chars

  /** The lower-case hexadecimal digit of `d`. */
  function Digit(d: nat): (c: char)
    requires d < 16
    ensures IsHexDigit(c) && !IsUpper(c)
  {
    if d < 10 then ('0' as int + d) as char else ('a' as int + d - 10) as char
  }

  /** A character that `[a-f\d]` matches under the `i` flag. */
  predicate IsHexDigit(c: char)
  {
    IsDigit(c) || ('a' <= c <= 'f') || ('A' <= c <= 'F')
  }

  /** `parseInt(c, 16)` of one hexadecimal digit, either case. */
  function DigitValue(c: char): (v: nat)
    requires IsHexDigit(c)
    ensures v < 16
  {
    if IsDigit(c) then c as int - '0' as int
    else if 'a' <= c <= 'f' then c as int - 'a' as int + 10
    else c as int - 'A' as int + 10
  }

  lemma DigitValueOfDigit(d: nat)
    requires d < 16
    ensures DigitValue(Digit(d)) == d
  {
  }

  /** The value of a lower-case digit determines the digit. */
  lemma DigitOfDigitValue(c: char)
    requires IsHexDigit(c)
    ensures Digit(DigitValue(c)) == ToLower(c)
  {
  }

  /** `n.toString(16)` for a non-negative integer `n`. */
  function NatToHex(n: nat): (s: string)
    decreases n
  {
    if n < 16 then [Digit(n)] else NatToHex(n / 16) + [Digit(n % 16)]
  }

  /** `x.toString(16)` for an integer `x`. */
  function IntToHex(x: int): string
  {
    if x < 0 then "-" + NatToHex(-x) else NatToHex(x)
  }

  /** `s.padStart(2, "0")`. */
  function PadStart2(s: string): string
  {
    if |s| >= 2 then s else seq(2 - |s|, _ => '0') + s
  }

  /** `x.toString(16).padStart(2, "0")`, the per-byte format of both tools. */
  function Hex2(x: int): string
  {
    PadStart2(IntToHex(x))
  }

  /**
   * For a value that fits in a byte the format is exactly two lower-case
   * digits, high nibble first.
   */
  lemma Hex2OfByte(x: int)
    requires 0 <= x < 256
    ensures Hex2(x) == [Digit(x / 16), Digit(x % 16)]
  {
    if x >= 16 {
      assert NatToHex(x / 16) == [Digit(x / 16)];
    }
  }

  /** Value of a two-digit hexadecimal text, `parseInt(s, 16)`. */
  function PairValue(hi: char, lo: char): (v: nat)
    requires IsHexDigit(hi) && IsHexDigit(lo)
    ensures v < 256
  {
    16 * DigitValue(hi) + DigitValue(lo)
  }

  /** Reading back the two digits `Hex2` writes gives the byte. */
  lemma {:induction false} PairValueOfHex2(x: int)
    requires 0 <= x < 256
    ensures |Hex2(x)| == 2 && IsHexDigit(Hex2(x)[0]) && IsHexDigit(Hex2(x)[1])
    ensures PairValue(Hex2(x)[0], Hex2(x)[1]) == x
  {
    Hex2OfByte(x);
    DigitValueOfDigit(x / 16);
    DigitValueOfDigit(x % 16);
  }

  /** Writing the value of two digits gives the digits back, lower-cased. */
  lemma {:induction false} Hex2OfPairValue(hi: char, lo: char)
    requires IsHexDigit(hi) && IsHexDigit(lo)
    ensures Hex2(PairValue(hi, lo)) == [ToLower(hi), ToLower(lo)]
  {
    var v := PairValue(hi, lo);
    Hex2OfByte(v);
    assert v / 16 == DigitValue(hi) && v % 16 == DigitValue(lo);
    DigitOfDigitValue(hi);
    DigitOfDigitValue(lo);
  }
}

/** Counting in a sequence, shared by the text statistics and the visit tallies. */
module Seqs {
  import opened Options

  /**
   * `s.find(e => key(e) === k)`: the first element whose key is `k`, or
   * none when no element has it.
   */
  function FindBy<T(==)>(s: seq<T>, key: T -> string, k: string): (r: Option<T>)
    ensures r.None? <==> forall i :: 0 <= i < |s| ==> key(s[i]) != k
    ensures r.Some? ==> exists i :: 0 <= i < |s| && s[i] == r.value && key(s[i]) == k && FirstWithKey(s, key, k, i)
  {
    if s == [] then None
    else if key(s[0]) == k then
      assert FirstWithKey(s, key, k, 0);
      Some(s[0])
    else
      var r := FindBy(s[1..], key, k);
      if r.Some? then
        var i :| 0 <= i < |s[1..]| && s[1..][i] == r.value && key(s[1..][i]) == k && FirstWithKey(s[1..], key, k, i);
        assert FirstWithKey(s, key, k, i + 1) by {
          forall j | 0 <= j < i + 1 ensures key(s[j]) != k {
            if j > 0 {
              assert s[j] == s[1..][j - 1];
            }
          }
        }
        assert s[i + 1] == r.value;
        r
      else
        assert forall i :: 1 <= i < |s| ==> s[i] == s[1..][i - 1];
        r
  }

  /** No element before position `i` has the key `k`. */
  predicate FirstWithKey<T>(s: seq<T>, key: T -> string, k: string, i: nat)
    requires i <= |s|
  {
    forall j :: 0 <= j < i ==> key(s[j]) != k
  }

  /** The number of times `x` occurs in `s`. */
  function Occurrences<T(==)>(s: seq<T>, x: T): (n: nat)
    ensures n <= |s|
    ensures n == 0 <==> x !in s
  {
    if s == [] then 0 else Occurrences(s[..|s| - 1], x) + (if s[|s| - 1] == x then 1 else 0)
  }

  /** Occurrences in two sequences put together add up. */
  lemma {:induction false} OccurrencesAppend<T>(a: seq<T>, b: seq<T>, x: T)
    ensures Occurrences(a + b, x) == Occurrences(a, x) + Occurrences(b, x)
    decreases |b|
  {
    if b == [] {
      assert a + b == a;
    } else {
      assert (a + b)[..|a + b| - 1] == a + b[..|b| - 1];
      OccurrencesAppend(a, b[..|b| - 1], x);
    }
  }
}

/** `String.prototype.split` and `Array.prototype.join` with a one-character separator. */
module Strings {
  import opened Seqs

  /** `s.split(sep)`: the pieces between the separators, at least one piece. */
  function Split(s: string, sep: char): (pieces: seq<string>)
    ensures |pieces| >= 1
    ensures forall k :: 0 <= k < |pieces| ==> sep !in pieces[k]
  {
    if s == [] then [""]
    else
      var p := Split(s[..|s| - 1], sep);
      var c := s[|s| - 1];
      if c == sep then p + [""] else p[..|p| - 1] + [p[|p| - 1] + [c]]
  }

  /** `pieces.join(sep)`. */
  function Join(pieces: seq<string>, sep: char): string
    requires |pieces| >= 1
  {
    if |pieces| == 1 then pieces[0] else Join(pieces[..|pieces| - 1], sep) + [sep] + pieces[|pieces| - 1]
  }

  /** Joining the pieces with the separator gives the text back. */
  lemma {:induction false} JoinSplit(s: string, sep: char)
    ensures Join(Split(s, sep), sep) == s
  {
    if s != [] {
      var init := s[..|s| - 1];
      JoinSplit(init, sep);
      var p := Split(init, sep);
      if s[|s| - 1] != sep && |p| > 1 {
        assert (p[..|p| - 1] + [p[|p| - 1] + [s[|s| - 1]]])[..|p| - 1] == p[..|p| - 1];
      }
      assert s == init + [s[|s| - 1]];
    }
  }

  /**
   * The last piece is the text after the last separator: it holds no
   * separator, it ends the text, and it is either all of the text or
   * preceded by a separator.
   */
  lemma {:induction false} LastPiece(s: string, sep: char)
    ensures var e := Split(s, sep)[|Split(s, sep)| - 1];
      && sep !in e
      && |e| <= |s| && s[|s| - |e|..] == e
      && (|e| == |s| <==> sep !in s)
      && (|e| < |s| ==> s[|s| - |e| - 1] == sep)
  {
    if s != [] {
      var init := s[..|s| - 1];
      var c := s[|s| - 1];
      LastPiece(init, sep);
      var p := Split(init, sep);
      var e0 := p[|p| - 1];
      var e := Split(s, sep)[|Split(s, sep)| - 1];
      if c == sep {
        assert e == "";
      } else {
        assert e == e0 + [c];
        assert s[|s| - |e|..] == init[|init| - |e0|..] + [c];
        if |e0| < |init| {
          assert s[|s| - |e| - 1] == init[|init| - |e0| - 1];
        }
      }
    }
  }

  /** There is one more piece than there are separators. */
  lemma {:induction false} SplitCount(s: string, sep: char)
    ensures |Split(s, sep)| == Occurrences(s, sep) + 1
  {
    if s != [] {
      SplitCount(s[..|s| - 1], sep);
    }
  }
}
