// The few Python string built-ins the snapshot script relies on, restricted
// to what the script needs: `str.lower`, `str(int)`, `int(str)`,
// `str.split(sep)` and `str.splitlines()`.
module Strings {
  import opened Wrappers

  /** ASCII case folding (`str.lower` restricted to 'A'..'Z'). */
  function LowerChar(c: char): char
  {
    if 'A' <= c <= 'Z' then (c as int + 32) as char else c
  }

  function Lower(s: string): (r: string)
    ensures |r| == |s|
  {
    if |s| == 0 then "" else Lower(s[..|s| - 1]) + [LowerChar(s[|s| - 1])]
  }

  /** Lower-casing works character by character. */
  lemma {:induction false} LowerEach(s: string)
    ensures forall i :: 0 <= i < |s| ==> Lower(s)[i] == LowerChar(s[i])
    decreases |s|
  {
    if |s| > 0 {
      LowerEach(s[..|s| - 1]);
    }
  }

  lemma {:induction false} LowerAppend(a: string, b: string)
    ensures Lower(a + b) == Lower(a) + Lower(b)
    decreases |b|
  {
    if |b| == 0 {
      assert a + b == a;
    } else {
      assert (a + b)[..|a + b| - 1] == a + b[..|b| - 1];
      LowerAppend(a, b[..|b| - 1]);
    }
  }

  /** A string with no upper-case ASCII letter is its own lower case. */
  lemma {:induction false} LowerOfLower(s: string)
    requires forall i :: 0 <= i < |s| ==> !('A' <= s[i] <= 'Z')
    ensures Lower(s) == s
    decreases |s|
  {
    if |s| > 0 {
      LowerOfLower(s[..|s| - 1]);
    }
  }

  predicate IsDigit(c: char)
  {
    '0' <= c <= '9'
  }

  predicate AllDigits(s: string)
  {
    forall i :: 0 <= i < |s| ==> IsDigit(s[i])
  }

  function DigitChar(d: nat): (c: char)
    requires d < 10
    ensures IsDigit(c)
  {
    ('0' as int + d) as char
  }

  /** Decimal digits of `n`, without leading zeros (Python's `str(n)`). */
  function NatToString(n: nat): (r: string)
    ensures |r| > 0 && AllDigits(r)
    decreases n
  {
    if n < 10 then [DigitChar(n)] else NatToString(n / 10) + [DigitChar(n % 10)]
  }

  /** Python's `str(i)` for an integer. */
  function IntToString(i: int): (r: string)
    ensures |r| > 0
    ensures forall k :: 0 <= k < |r| ==> IsDigit(r[k]) || r[k] == '-'
  {
    if i < 0 then "-" + NatToString(-i) else NatToString(i)
  }

  function DigitsValue(s: string): nat
    requires AllDigits(s)
  {
    if |s| == 0 then 0
    else DigitsValue(s[..|s| - 1]) * 10 + (s[|s| - 1] as int - '0' as int)
  }

  predicate IsSpace(c: char)
  {
    c == ' ' || c == '\t' || c == '\n' || c == '\r' || c == 11 as char || c == 12 as char
  }

  function TrimStart(s: string): (r: string)
    ensures |r| <= |s| && r == s[|s| - |r|..]
    ensures |r| > 0 ==> !IsSpace(r[0])
    decreases |s|
  {
    if |s| > 0 && IsSpace(s[0]) then TrimStart(s[1..]) else s
  }

  function TrimEnd(s: string): (r: string)
    ensures |r| <= |s| && r == s[..|r|]
    ensures |r| > 0 ==> !IsSpace(r[|r| - 1])
    decreases |s|
  {
    if |s| > 0 && IsSpace(s[|s| - 1]) then TrimEnd(s[..|s| - 1]) else s
  }

  /**
   * Python's `int(text)` on ASCII text: optional surrounding white space,
   * an optional sign, then at least one decimal digit; anything else is
   * the `ValueError` that `int` raises, here `None`.
   */
  function ParseInt(text: string): Option<int>
  {
    ParseTrimmed(TrimEnd(TrimStart(text)))
  }

  /** `int` on text with the surrounding white space removed. */
  function ParseTrimmed(t: string): Option<int>
  {
    if |t| > 0 && (t[0] == '-' || t[0] == '+') then
      var digits := t[1..];
      if |digits| > 0 && AllDigits(digits) then
        var v: int := DigitsValue(digits);
        Some(if t[0] == '-' then -v else v)
      else None
    else if |t| > 0 && AllDigits(t) then Some(DigitsValue(t))
    else None
  }

  /** `int` succeeds only on text that holds at least one decimal digit. */
  lemma ParseIntNeedsDigit(text: string)
    ensures ParseInt(text).Some? ==> exists k :: 0 <= k < |text| && IsDigit(text[k])
  {
    var t := TrimEnd(TrimStart(text));
    var offset := |text| - |TrimStart(text)|;
    if ParseInt(text).Some? {
      var k := if IsDigit(t[0]) then 0 else 1;
      assert IsDigit(t[k]);
      assert t[k] == text[offset + k];
    }
  }

  /** `int(" 12 ")` is 12, `int("-3")` is -3 and `int("+7")` is 7. */
  lemma ParseIntExamples()
    ensures ParseInt(" 12 ") == Some(12)
    ensures ParseInt("-3") == Some(-3) && ParseInt("+7") == Some(7)
  {
    assert " 12 " == [' '] + "12" + [' '];
    TrimPadded("12");
    TrimmedSigned();
    ParseTrimmedExamples();
  }

  /** `int` raises `ValueError` on "1a", on "", on a bare sign and on white space alone. */
  lemma ParseIntRefusals()
    ensures ParseInt("1a") == None && ParseInt("") == None
    ensures ParseInt("-") == None && ParseInt(" ") == None
  {
  }

  /** White space on both sides of a word is dropped. */
  lemma TrimPadded(s: string)
    requires |s| > 0 && !IsSpace(s[0]) && !IsSpace(s[|s| - 1])
    ensures TrimEnd(TrimStart([' '] + s + [' '])) == s
  {
    var padded := [' '] + s + [' '];
    assert padded[1..] == s + [' '];
    assert TrimStart(padded) == s + [' '];
    assert (s + [' '])[..|s|] == s;
  }

  lemma TrimmedSigned()
    ensures TrimEnd(TrimStart("-3")) == "-3" && TrimEnd(TrimStart("+7")) == "+7"
  {
    assert TrimStart("-3") == "-3";
    assert TrimStart("+7") == "+7";
  }

  lemma ParseTrimmedExamples()
    ensures ParseTrimmed("12") == Some(12)
    ensures ParseTrimmed("-3") == Some(-3) && ParseTrimmed("+7") == Some(7)
  {
    assert "12"[..1] == "1";
    assert DigitsValue("12") == 12;
    assert "-3"[1..] == "3";
    assert "+7"[1..] == "7";
  }

  lemma {:induction false} DigitsValueOfNatToString(n: nat)
    ensures DigitsValue(NatToString(n)) == n
    decreases n
  {
    if n >= 10 {
      var s := NatToString(n);
      assert s[..|s| - 1] == NatToString(n / 10);
      DigitsValueOfNatToString(n / 10);
    }
  }

  /** `int(str(i)) == i`: formatting an integer loses nothing. */
  lemma ParseIntToString(i: int)
    ensures ParseInt(IntToString(i)) == Some(i)
  {
    var s := IntToString(i);
    Untrimmed(s);
    if i < 0 {
      var digits := NatToString(-i);
      assert s == "-" + digits && s[1..] == digits;
      ParseSigned(s);
      DigitsValueOfNatToString(-i);
    } else {
      ParseUnsigned(s);
      DigitsValueOfNatToString(i);
    }
  }

  /** Text that starts and ends with something other than white space has nothing to trim. */
  lemma Untrimmed(s: string)
    requires |s| > 0 && !IsSpace(s[0]) && !IsSpace(s[|s| - 1])
    ensures TrimEnd(TrimStart(s)) == s
  {
    assert TrimStart(s) == s;
  }

  lemma ParseSigned(t: string)
    requires |t| > 1 && t[0] == '-' && AllDigits(t[1..])
    ensures ParseTrimmed(t) == Some(0 - DigitsValue(t[1..]))
  {
  }

  lemma ParseUnsigned(t: string)
    requires |t| > 0 && AllDigits(t)
    ensures ParseTrimmed(t) == Some(DigitsValue(t))
  {
  }

  lemma IntToStringInjective(i: int, j: int)
    requires IntToString(i) == IntToString(j)
    ensures i == j
  {
    ParseIntToString(i);
    ParseIntToString(j);
  }

  /**
   * Python's `s.split(sep)` with an explicit one-character separator: every
   * occurrence splits, so empty pieces are kept and the result is never empty.
   */
  function Split(s: string, sep: char): (r: seq<string>)
    ensures |r| > 0
    ensures sep !in s ==> r == [s]
    decreases |s|
  {
    if |s| == 0 then [""]
    else if s[0] == sep then [""] + Split(s[1..], sep)
    else
      var rest := Split(s[1..], sep);
      assert sep !in s ==> sep !in s[1..] && s == [s[0]] + s[1..];
      [[s[0]] + rest[0]] + rest[1..]
  }

  function Join(pieces: seq<string>, sep: char): string
    requires |pieces| > 0
  {
    if |pieces| == 1 then pieces[0] else pieces[0] + [sep] + Join(pieces[1..], sep)
  }

  /** A word and a separator in front of the rest: the word is the first piece. */
  lemma {:induction false} SplitAfterWord(w: string, rest: string, sep: char)
    requires sep !in w
    ensures Split(w + [sep] + rest, sep) == [w] + Split(rest, sep)
    decreases |w|
  {
    var s := w + [sep] + rest;
    if |w| == 0 {
      assert s[1..] == rest;
    } else {
      assert s[0] == w[0] && s[1..] == w[1..] + [sep] + rest;
      assert sep !in w[1..] by { assert forall k :: 0 <= k < |w[1..]| ==> w[1..][k] == w[k + 1]; }
      SplitAfterWord(w[1..], rest, sep);
      assert [w[0]] + w[1..] == w;
    }
  }

  /** The pieces of a split hold no separator, and joining them gives the string back. */
  lemma {:induction false} SplitJoin(s: string, sep: char)
    ensures Join(Split(s, sep), sep) == s
    ensures forall p :: p in Split(s, sep) ==> sep !in p
  {
    JoinOfSplit(s, sep);
    PiecesOfSplit(s, sep);
  }

  lemma {:induction false} JoinOfSplit(s: string, sep: char)
    ensures Join(Split(s, sep), sep) == s
    decreases |s|
  {
    if |s| > 0 {
      JoinOfSplit(s[1..], sep);
      var rest := Split(s[1..], sep);
      if s[0] == sep {
        assert Split(s, sep)[1..] == rest;
        assert s == [] + [sep] + s[1..];
      } else {
        var r := Split(s, sep);
        assert r[0] == [s[0]] + rest[0];
        assert r[1..] == rest[1..];
        if |rest| > 1 {
          assert Join(rest, sep) == rest[0] + [sep] + Join(rest[1..], sep);
        }
        assert s == [s[0]] + s[1..];
      }
    }
  }

  lemma {:induction false} PiecesOfSplit(s: string, sep: char)
    ensures forall p :: p in Split(s, sep) ==> sep !in p
    decreases |s|
  {
    if |s| > 0 {
      PiecesOfSplit(s[1..], sep);
      var rest := Split(s[1..], sep);
      var r := Split(s, sep);
      if s[0] == sep {
        assert r[1..] == rest;
      } else {
        assert r[0] == [s[0]] + rest[0];
        assert r[1..] == rest[1..];
        forall p | p in r ensures sep !in p {
          if p != r[0] {
            assert p in rest;
          } else {
            assert sep !in rest[0];
          }
        }
      }
    }
  }

  /** The characters Python's `str.splitlines` treats as line boundaries. */
  predicate IsLineBreak(c: char)
  {
    c == '\n' || c == '\r' || c == 11 as char || c == 12 as char
    || c == 0x1c as char || c == 0x1d as char || c == 0x1e as char
    || c == 0x85 as char || c == 0x2028 as char || c == 0x2029 as char
  }

  /** Index of the first line boundary in `s`, or `|s|` when there is none. */
  function LineLength(s: string): (n: nat)
    ensures n <= |s|
    ensures n < |s| ==> IsLineBreak(s[n])
    ensures forall k :: 0 <= k < n ==> !IsLineBreak(s[k])
    decreases |s|
  {
    if |s| == 0 || IsLineBreak(s[0]) then 0 else 1 + LineLength(s[1..])
  }

  /**
   * Python's `s.splitlines()`: the lines of `s` without their boundaries;
   * "\r\n" counts as one boundary and a final boundary opens no empty line.
   */
  function SplitLines(s: string): (lines: seq<string>)
    ensures forall l :: l in lines ==> forall k :: 0 <= k < |l| ==> !IsLineBreak(l[k])
    decreases |s|
  {
    if |s| == 0 then []
    else
      var n := LineLength(s);
      if n == |s| then [s]
      else
        var width := if s[n] == '\r' && n + 1 < |s| && s[n + 1] == '\n' then 2 else 1;
        [s[..n]] + SplitLines(s[n + width..])
  }
}
