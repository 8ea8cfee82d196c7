// File-name escaping of the snapshot script (`_encodeFileName`): every
// character that some file system refuses, and '%' itself, becomes '%'
// followed by its lower-case hexadecimal code point.
module FileNames {
  import opened Wrappers

  const WindowsIllegalCharacters: set<char> := {'/', '<', '>', ':', '"', '\\', '|', '?', '*'}
  const LinuxIllegalCharacters: set<char> := {'/'}
  const MacOSIllegalCharacters: set<char> := {'/', ':'}

  /** The characters that are escaped: '%' and every character illegal somewhere. */
  const EncodedCharacters: set<char> := {'%', '/', '<', '>', ':', '"', '\\', '|', '?', '*'}

  lemma EncodedCharactersComposition()
    ensures EncodedCharacters ==
      {'%'} + WindowsIllegalCharacters + LinuxIllegalCharacters + MacOSIllegalCharacters
  {
  }

  /** The lower-case hexadecimal digit for `d`. */
  function HexDigit(d: nat): (c: char)
    requires d < 16
    ensures IsHexDigit(c) && HexValue(c) == d
  {
    if d < 10 then ('0' as int + d) as char else ('a' as int + d - 10) as char
  }

  predicate IsHexDigit(c: char)
  {
    '0' <= c <= '9' || 'a' <= c <= 'f'
  }

  function HexValue(c: char): nat
    requires IsHexDigit(c)
  {
    if '0' <= c <= '9' then c as int - '0' as int else c as int - 'a' as int + 10
  }

  /** Python's `format(n, "x")`: lower-case hexadecimal without leading zeros. */
  function LowerHex(n: nat): string
    decreases n
  {
    if n < 16 then [HexDigit(n)] else LowerHex(n / 16) + [HexDigit(n % 16)]
  }

  /** Python's `f'%{format(ord(c), "x")}'`. */
  function PercentEscape(c: char): string
  {
    "%" + LowerHex(c as nat)
  }

  /** What one character of a raw name turns into. */
  function EscapeChar(c: char): string
  {
    if c in EncodedCharacters then PercentEscape(c) else [c]
  }

  /** The concatenation of a sequence of strings, in order. */
  function Concat(pieces: seq<string>): string
  {
    if |pieces| == 0 then "" else Concat(pieces[..|pieces| - 1]) + pieces[|pieces| - 1]
  }

  /** The escaped name: each character's escape, concatenated in order. */
  function Escaped(s: string): string
  {
    Concat(seq(|s|, i requires 0 <= i < |s| => EscapeChar(s[i])))
  }

  /** `_encodeFileName`: builds the escaped name one character at a time. */
  method EncodeFileName(rawFileName: string) returns (escapedFileName: string)
    ensures escapedFileName == Escaped(rawFileName)
  {
    escapedFileName := "";
    EscapedEmpty();
    for index := 0 to |rawFileName|
      invariant escapedFileName == Escaped(rawFileName[..index])
    {
      var c := rawFileName[index];
      var piece := [c];
      if c in EncodedCharacters {
        piece := PercentEscape(c);
      }
      assert rawFileName[..index + 1] == rawFileName[..index] + [c];
      EscapedSnoc(rawFileName[..index], c);
      escapedFileName := escapedFileName + piece;
    }
    assert rawFileName[..|rawFileName|] == rawFileName;
  }

  /** Undoes the escaping: every "%hh" becomes the character with code hh. */
  function Decode(s: string): Option<string>
    decreases |s|
  {
    if |s| == 0 then Some("")
    else if s[0] == '%' then
      if |s| < 3 || !IsHexDigit(s[1]) || !IsHexDigit(s[2]) then None
      else
        match Decode(s[3..])
        case None => None
        case Some(rest) => Some([(HexValue(s[1]) * 16 + HexValue(s[2])) as char] + rest)
    else
      match Decode(s[1..])
      case None => None
      case Some(rest) => Some([s[0]] + rest)
  }

  /** Number of characters of `s` that get escaped. */
  function CountEncoded(s: string): nat
  {
    if |s| == 0 then 0
    else CountEncoded(s[..|s| - 1]) + (if s[|s| - 1] in EncodedCharacters then 1 else 0)
  }

  /**
   * Every escaped character is ASCII with a code of at least 0x10, so its
   * escape is exactly '%' and two lower-case hex digits that decode back to it.
   */
  lemma EscapeOfEncoded(c: char)
    requires c in EncodedCharacters
    ensures EscapeChar(c) == ['%', HexDigit(c as nat / 16), HexDigit(c as nat % 16)]
    ensures 16 <= c as nat < 128
  {
    assert c as nat / 16 < 16;
    assert LowerHex(c as nat / 16) == [HexDigit(c as nat / 16)];
  }

  lemma {:induction false} ConcatAppend(a: seq<string>, b: seq<string>)
    ensures Concat(a + b) == Concat(a) + Concat(b)
    decreases |b|
  {
    if |b| == 0 {
      assert a + b == a;
    } else {
      var b' := b[..|b| - 1];
      assert (a + b)[..|a + b| - 1] == a + b';
      ConcatAppend(a, b');
    }
  }

  lemma EscapedAppend(a: string, b: string)
    ensures Escaped(a + b) == Escaped(a) + Escaped(b)
  {
    var pa := seq(|a|, i requires 0 <= i < |a| => EscapeChar(a[i]));
    var pb := seq(|b|, i requires 0 <= i < |b| => EscapeChar(b[i]));
    assert seq(|a + b|, i requires 0 <= i < |a + b| => EscapeChar((a + b)[i])) == pa + pb;
    ConcatAppend(pa, pb);
  }

  lemma EscapedSingle(c: char)
    ensures Escaped([c]) == EscapeChar(c)
  {
    assert seq(1, i requires 0 <= i < 1 => EscapeChar([c][i])) == [EscapeChar(c)];
    assert Concat([EscapeChar(c)]) == Concat([]) + EscapeChar(c);
  }

  lemma EscapedSnoc(s: string, c: char)
    ensures Escaped(s + [c]) == Escaped(s) + EscapeChar(c)
  {
    EscapedAppend(s, [c]);
    EscapedSingle(c);
  }

  lemma EscapedCons(c: char, s: string)
    ensures Escaped([c] + s) == EscapeChar(c) + Escaped(s)
  {
    EscapedAppend([c], s);
    EscapedSingle(c);
  }

  lemma EscapedEmpty()
    ensures Escaped("") == ""
  {
  }

  /** Characters outside the escaped set are copied unchanged. */
  lemma {:induction false} EscapedIdentity(s: string)
    requires forall i :: 0 <= i < |s| ==> s[i] !in EncodedCharacters
    ensures Escaped(s) == s
    decreases |s|
  {
    if |s| == 0 {
      EscapedEmpty();
    } else {
      EscapedIdentity(s[..|s| - 1]);
      assert s == s[..|s| - 1] + [s[|s| - 1]];
      EscapedSnoc(s[..|s| - 1], s[|s| - 1]);
    }
  }

  /** Each escaped character adds exactly two characters to the name. */
  lemma {:induction false} EscapedLength(s: string)
    ensures |Escaped(s)| == |s| + 2 * CountEncoded(s)
    decreases |s|
  {
    if |s| == 0 {
      EscapedEmpty();
    } else {
      EscapedLength(s[..|s| - 1]);
      assert s == s[..|s| - 1] + [s[|s| - 1]];
      EscapedSnoc(s[..|s| - 1], s[|s| - 1]);
      var c := s[|s| - 1];
      if c in EncodedCharacters {
        EscapeOfEncoded(c);
      }
    }
  }

  /** No character of `t` is one that gets escaped, except for '%'. */
  predicate OnlyEscapes(t: string)
  {
    forall i :: 0 <= i < |t| ==> t[i] == '%' || t[i] !in EncodedCharacters
  }

  /** The escaped name holds no escaped character except the '%' of the escapes. */
  lemma {:induction false} EscapedIsSafe(s: string)
    ensures OnlyEscapes(Escaped(s))
    decreases |s|
  {
    if |s| == 0 {
      EscapedEmpty();
    } else {
      var init, c := s[..|s| - 1], s[|s| - 1];
      EscapedIsSafe(init);
      assert s == init + [c];
      EscapedSnoc(init, c);
      EscapeCharSafe(c);
      OnlyEscapesAppend(Escaped(init), EscapeChar(c));
    }
  }

  lemma EscapeCharSafe(c: char)
    ensures OnlyEscapes(EscapeChar(c))
  {
    if c in EncodedCharacters {
      EscapeOfEncoded(c);
    }
  }

  lemma OnlyEscapesAppend(a: string, b: string)
    requires OnlyEscapes(a) && OnlyEscapes(b)
    ensures OnlyEscapes(a + b)
  {
    forall i | 0 <= i < |a + b|
      ensures (a + b)[i] == '%' || (a + b)[i] !in EncodedCharacters
    {
      if i >= |a| {
        assert (a + b)[i] == b[i - |a|];
      }
    }
  }

  /** Decoding inverts escaping; escaping '%' itself is what makes this hold. */
  lemma {:induction false} DecodeEscaped(s: string)
    ensures Decode(Escaped(s)) == Some(s)
    decreases |s|
  {
    if |s| == 0 {
      EscapedEmpty();
    } else {
      var c, rest := s[0], s[1..];
      assert s == [c] + rest;
      EscapedCons(c, rest);
      DecodeEscaped(rest);
      DecodeEscapeChar(c, Escaped(rest));
    }
  }

  lemma DecodeEscapeChar(c: char, tail: string)
    ensures Decode(EscapeChar(c) + tail) ==
      match Decode(tail) case None => None case Some(t) => Some([c] + t)
  {
    if c in EncodedCharacters {
      EscapeOfEncoded(c);
      DecodePercent(HexDigit(c as nat / 16), HexDigit(c as nat % 16), tail);
    } else {
      var e := EscapeChar(c) + tail;
      assert e[0] == c != '%';
      assert e[1..] == tail;
    }
  }

  lemma DecodePercent(hi: char, lo: char, tail: string)
    requires IsHexDigit(hi) && IsHexDigit(lo)
    ensures Decode(['%', hi, lo] + tail) ==
      match Decode(tail)
      case None => None
      case Some(t) => Some([(HexValue(hi) * 16 + HexValue(lo)) as char] + t)
  {
    assert (['%', hi, lo] + tail)[3..] == tail;
  }

  /** Two different names never share a file name. */
  lemma EscapedInjective(a: string, b: string)
    requires Escaped(a) == Escaped(b)
    ensures a == b
  {
    DecodeEscaped(a);
    DecodeEscaped(b);
  }

  /** A name without escaped characters, such as "Rhylanor", is its own file name. */
  lemma RhylanorUnchanged()
    ensures Escaped("Rhylanor") == "Rhylanor"
  {
    EscapedIdentity("Rhylanor");
  }

  /** Every escape is '%' plus two hex digits, e.g. ':' becomes "%3a" and '%' becomes "%25". */
  lemma EscapeCharExamples()
    ensures EscapeChar(':') == "%3a" && EscapeChar('%') == "%25" && EscapeChar('/') == "%2f"
    ensures EscapeChar('a') == "a"
  {
    EscapeOfEncoded(':');
    EscapeOfEncoded('%');
    EscapeOfEncoded('/');
  }
}
