/** The Python string built-ins the zoo.cfg parser and `format_node` call:
    `str.strip` (with the `str.isspace` whitespace it removes), `str.split(sep)`
    and `int(str)`, over strings as sequences of characters. `sep.join` and
    `str(int)` are not called by the charm; they are here to state the round
    trips of `split` and `int`. */
module Text {
  import opened Wrappers

  /** Python's `str.isspace` for a single character: the ASCII controls
      tab to carriage return and 0x1C to 0x1F, the space, and the Unicode
      separators. */
  predicate IsSpace(c: char) {
    || '\t' <= c <= '\r'
    || '\U{1C}' <= c <= ' '
    || c == '\U{85}' || c == '\U{A0}' || c == '\U{1680}'
    || '\U{2000}' <= c <= '\U{200A}'
    || c == '\U{2028}' || c == '\U{2029}' || c == '\U{202F}' || c == '\U{205F}' || c == '\U{3000}'
  }

  predicate AllSpace(s: string) {
    forall i :: 0 <= i < |s| ==> IsSpace(s[i])
  }

  /** True when `s` has no whitespace at either end. */
  predicate Trimmed(s: string) {
    s == [] || (!IsSpace(s[0]) && !IsSpace(s[|s| - 1]))
  }

  /** The number of whitespace characters `s` starts with. */
  function LeadingSpaces(s: string): (n: nat)
    ensures n <= |s| && forall i :: 0 <= i < n ==> IsSpace(s[i])
    ensures n == |s| || !IsSpace(s[n])
  {
    if s != [] && IsSpace(s[0]) then 1 + LeadingSpaces(s[1..]) else 0
  }

  /** The number of whitespace characters `s` ends with. */
  function TrailingSpaces(s: string): (n: nat)
    ensures n <= |s| && forall i :: |s| - n <= i < |s| ==> IsSpace(s[i])
    ensures n == |s| || !IsSpace(s[|s| - n - 1])
  {
    if s != [] && IsSpace(s[|s| - 1]) then 1 + TrailingSpaces(s[..|s| - 1]) else 0
  }

  /** Python's `str.strip()` with no argument: the leading whitespace, then
      the trailing whitespace of what is left, removed. */
  function Strip(s: string): (r: string)
    ensures Trimmed(r)
  {
    var t := s[LeadingSpaces(s)..];
    t[..|t| - TrailingSpaces(t)]
  }

  lemma {:induction false} LeadingOfSpaces(pre: string, rest: string)
    requires AllSpace(pre)
    requires rest == [] || !IsSpace(rest[0])
    ensures LeadingSpaces(pre + rest) == |pre|
  {
    if pre != [] {
      assert (pre + rest)[1..] == pre[1..] + rest;
      LeadingOfSpaces(pre[1..], rest);
    } else {
      assert pre + rest == rest;
    }
  }

  lemma {:induction false} TrailingOfSpaces(core: string, post: string)
    requires AllSpace(post)
    requires core == [] || !IsSpace(core[|core| - 1])
    ensures TrailingSpaces(core + post) == |post|
  {
    if post != [] {
      var s := core + post;
      assert s[..|s| - 1] == core + post[..|post| - 1];
      TrailingOfSpaces(core, post[..|post| - 1]);
    } else {
      assert core + post == core;
    }
  }

  /** `strip` removes exactly the whitespace around a trimmed core. */
  lemma StripExact(pre: string, core: string, post: string)
    requires AllSpace(pre) && AllSpace(post) && Trimmed(core)
    ensures Strip(pre + core + post) == core
  {
    var s := pre + core + post;
    if core == [] {
      assert s == pre + post + [];
      LeadingOfSpaces(pre + post, []);
      assert s[|s|..] == [];
    } else {
      assert s == pre + (core + post);
      LeadingOfSpaces(pre, core + post);
      var t := s[|pre|..];
      assert t == core + post;
      TrailingOfSpaces(core, post);
      assert t[..|t| - |post|] == core;
    }
  }

  /** Python's `str.split(sep)` with a one-character separator: the pieces
      between separators, in order; always at least one piece. */
  function Split(s: string, sep: char): (r: seq<string>)
    ensures |r| >= 1
    ensures forall k :: 0 <= k < |r| ==> sep !in r[k]
    ensures sep !in s ==> r == [s]
    ensures sep in s ==> |r| >= 2
    decreases |s|
  {
    if s == [] then [[]]
    else
      var rest := Split(s[1..], sep);
      if s[0] == sep then [[]] + rest
      else
        assert sep !in s ==> [s[0]] + s[1..] == s;
        [[s[0]] + rest[0]] + rest[1..]
  }

  /** Python's `sep.join(pieces)`, the inverse of `Split`. */
  function Join(pieces: seq<string>, sep: char): string
  {
    if pieces == [] then []
    else if |pieces| == 1 then pieces[0]
    else pieces[0] + [sep] + Join(pieces[1..], sep)
  }

  /** Joining the pieces of a split gives back the original string. */
  lemma {:induction false} SplitThenJoin(s: string, sep: char)
    ensures Join(Split(s, sep), sep) == s
    decreases |s|
  {
    if s != [] {
      var rest := Split(s[1..], sep);
      SplitThenJoin(s[1..], sep);
      if s[0] == sep {
        assert ([[]] + rest)[1..] == rest;
      } else if |rest| > 1 {
        assert ([[s[0]] + rest[0]] + rest[1..])[1..] == rest[1..];
      }
    }
  }

  /** Splitting at the first separator peels off the piece before it. */
  lemma {:induction false} SplitAtFirst(a: string, sep: char, b: string)
    requires sep !in a
    ensures Split(a + [sep] + b, sep) == [a] + Split(b, sep)
    decreases |a|
  {
    var s := a + [sep] + b;
    if a == [] {
      assert s[1..] == b;
    } else {
      assert s[1..] == a[1..] + [sep] + b;
      SplitAtFirst(a[1..], sep, b);
      assert [a[0]] + a[1..] == a;
    }
  }

  /** Splitting a join of separator-free pieces gives back the pieces. */
  lemma {:induction false} JoinThenSplit(pieces: seq<string>, sep: char)
    requires |pieces| >= 1
    requires forall k :: 0 <= k < |pieces| ==> sep !in pieces[k]
    ensures Split(Join(pieces, sep), sep) == pieces
    decreases |pieces|
  {
    if |pieces| > 1 {
      JoinThenSplit(pieces[1..], sep);
      SplitAtFirst(pieces[0], sep, Join(pieces[1..], sep));
    }
  }

  predicate IsDigit(c: char) {
    '0' <= c <= '9'
  }

  /** The digit body `int()` of CPython 3.6+ accepts: ASCII digits, with
      single underscores allowed only between two digits (PEP 515; earlier
      versions refuse every underscore). */
  predicate DigitBody(t: string)
    decreases |t|
  {
    && |t| > 0
    && IsDigit(t[0])
    && (|t| == 1 || DigitBody(t[1..]) || (t[1] == '_' && DigitBody(t[2..])))
  }

  lemma {:induction false} AllDigitsBody(t: string)
    requires |t| > 0 && forall i :: 0 <= i < |t| ==> IsDigit(t[i])
    ensures DigitBody(t)
    decreases |t|
  {
    if |t| > 1 {
      AllDigitsBody(t[1..]);
    }
  }

  /** The value of a digit body, underscores skipped. */
  function DigitsValue(t: string): nat
  {
    if t == [] then 0
    else if IsDigit(t[|t| - 1]) then
      10 * DigitsValue(t[..|t| - 1]) + (t[|t| - 1] as int - '0' as int)
    else DigitsValue(t[..|t| - 1])
  }

  /** `int()` of already-stripped text: an optional sign, then a digit body. */
  function ParseSigned(t: string): Option<int>
  {
    if |t| > 0 && (t[0] == '+' || t[0] == '-') then
      if DigitBody(t[1..]) then
        var v: int := DigitsValue(t[1..]);
        Some(if t[0] == '-' then -v else v)
      else None
    else if DigitBody(t) then Some(DigitsValue(t))
    else None
  }

  /** The ASCII information separators 0x1C to 0x1F: `str.isspace` accepts
      them, `int()` does not skip them. */
  predicate IsSeparatorControl(c: char) {
    '\U{1C}' <= c <= '\U{1F}'
  }

  /** The whitespace `int()` skips around its digits: the ASCII space, tab to
      carriage return, and the non-ASCII characters `str.isspace` accepts. */
  predicate IsIntSpace(c: char) {
    IsSpace(c) && !IsSeparatorControl(c)
  }

  predicate HasSeparatorControl(s: string) {
    exists i :: 0 <= i < |s| && IsSeparatorControl(s[i])
  }

  predicate AllIntSpace(s: string) {
    forall i :: 0 <= i < |s| ==> IsIntSpace(s[i])
  }

  /** Among ASCII characters, `str.isspace` accepts tab to carriage return,
      the four information separators and the space; `int()` skips all of
      them except the separators. */
  lemma AsciiWhitespace(c: char)
    requires c < '\U{80}'
    ensures IsSpace(c) <==> c in "\t\n\U{B}\U{C}\r\U{1C}\U{1D}\U{1E}\U{1F} "
    ensures IsIntSpace(c) <==> c in "\t\n\U{B}\U{C}\r "
  {
  }

  /** `int(s)` of CPython 3.6+ in base 10; `None` where it raises `ValueError`.
      `int()` skips `IsIntSpace` whitespace on both sides and then needs an
      optional sign and a digit body, neither of which holds any whitespace;
      that is the same as stripping all `str.isspace` whitespace and refusing
      any information separator, which is how it is written here.
      `ParseIntAround` and `ParseIntRejectsSeparator` state the two halves. */
  function ParseInt(s: string): Option<int>
  {
    if HasSeparatorControl(s) then None
    else ParseSigned(Strip(s))
  }

  /** A digit body is a non-empty run of digits and single underscores that
      starts and ends with a digit; both directions. */
  lemma {:induction false} DigitBodyShape(t: string)
    ensures DigitBody(t) <==>
              && |t| > 0 && IsDigit(t[0]) && IsDigit(t[|t| - 1])
              && (forall i :: 0 <= i < |t| ==> IsDigit(t[i]) || t[i] == '_')
              && (forall i :: 0 <= i < |t| - 1 ==> IsDigit(t[i]) || IsDigit(t[i + 1]))
    decreases |t|
  {
    if |t| > 1 {
      DigitBodyShape(t[1..]);
      DigitBodyShape(t[2..]);
      if DigitBody(t) {
        if DigitBody(t[1..]) {
          forall i | 1 <= i < |t| ensures t[i] == t[1..][i - 1] { }
        } else {
          forall i | 2 <= i < |t| ensures t[i] == t[2..][i - 2] { }
        }
      } else {
        assert t[1..][0] == t[1];
      }
    }
  }

  /** What `int()` accepts is free of whitespace and information separators. */
  lemma ParseSignedChars(t: string)
    requires ParseSigned(t).Some?
    ensures forall i :: 0 <= i < |t| ==> !IsSpace(t[i])
  {
    if t[0] == '+' || t[0] == '-' {
      DigitBodyShape(t[1..]);
      forall i | 1 <= i < |t| ensures !IsSpace(t[i]) {
        assert t[i] == t[1..][i - 1];
      }
    } else {
      DigitBodyShape(t);
    }
  }

  /** `int()` of text surrounded by the whitespace it skips is `int()` of the
      text itself: a sign, a digit body, and nothing else. */
  lemma ParseIntAround(pre: string, core: string, post: string)
    requires AllIntSpace(pre) && AllIntSpace(post) && Trimmed(core)
    ensures ParseInt(pre + core + post) == ParseSigned(core)
  {
    StripExact(pre, core, post);
    if ParseSigned(core).Some? {
      ParseSignedChars(core);
      NoSeparatorAround(pre, core, post);
    }
  }

  lemma NoSeparatorAround(pre: string, core: string, post: string)
    requires AllIntSpace(pre) && AllIntSpace(post)
    requires forall i :: 0 <= i < |core| ==> !IsSpace(core[i])
    ensures !HasSeparatorControl(pre + core + post)
  {
    var s := pre + core + post;
    forall i | 0 <= i < |s| ensures !IsSeparatorControl(s[i]) {
      if i < |pre| {
        assert s[i] == pre[i];
      } else if i < |pre| + |core| {
        assert s[i] == core[i - |pre|];
      } else {
        assert s[i] == post[i - |pre| - |core|];
      }
    }
  }

  /** An information separator anywhere makes `int()` raise. */
  lemma ParseIntRejectsSeparator(s: string, i: nat)
    requires i < |s| && IsSeparatorControl(s[i])
    ensures ParseInt(s) == None
  {
  }

  /** `0`, then a zero or an underscore, then `7`: a digit body worth 7. */
  lemma ZeroThenSeven(t: string)
    requires |t| == 3 && t[0] == '0' && (t[1] == '0' || t[1] == '_') && t[2] == '7'
    ensures DigitBody(t) && DigitsValue(t) == 7
  {
    DigitBodyShape(t);
    assert t[..2][..1] == "0" && "0"[..0] == [];
    assert DigitsValue("0") == 0;
    assert DigitsValue(t[..2]) == 0;
  }

  lemma ParseMinusZeroUnderscoreSeven(t: string)
    requires t == "-0_7"
    ensures ParseSigned(t) == Some(-7)
  {
    ZeroThenSeven(t[1..]);
  }

  /** `int()` accepts surrounding whitespace, a sign, a leading zero and a
      single underscore between digits. */
  lemma ParseIntSignedUnderscore()
    ensures ParseInt(" -0_7\n") == Some(-7)
  {
    var core := "-0_7";
    assert ParseInt(" " + core + "\n") == ParseSigned(core) by {
      assert Trimmed(core);
      ParseIntAround(" ", core, "\n");
    }
    assert " " + core + "\n" == " -0_7\n" by {
      assert " " + core == " -0_7";
    }
    assert ParseSigned(core) == Some(-7) by {
      ParseMinusZeroUnderscoreSeven(core);
    }
  }

  /** `int()` accepts leading zeros after a plus sign. */
  lemma ParseIntLeadingZeros()
    ensures ParseInt("+007") == Some(7)
  {
    var core := "+007";
    assert ParseInt(core) == ParseSigned(core) by {
      ParseIntAround([], core, []);
      assert [] + core + [] == core;
    }
    assert ParseSigned(core) == Some(7) by {
      ZeroThenSeven(core[1..]);
    }
  }

  /** `int()` refuses a trailing information separator, which `strip()`
      would have removed. */
  lemma ParseIntTrailingSeparator()
    ensures ParseInt("1\U{1C}") == None
  {
    ParseIntRejectsSeparator("1\U{1C}", 1);
  }

  /** `int()` refuses a doubled underscore. */
  lemma ParseIntDoubleUnderscore()
    ensures ParseInt("1__0") == None
  {
    ParseIntAround([], "1__0", []);
    assert [] + "1__0" + [] == "1__0";
    DigitBodyShape("1__0");
  }

  /** The decimal digits of a natural number, most significant first. */
  function Digits(n: nat): (r: string)
    ensures |r| > 0 && forall i :: 0 <= i < |r| ==> IsDigit(r[i])
  {
    if n < 10 then [('0' as int + n) as char]
    else Digits(n / 10) + [('0' as int + n % 10) as char]
  }

  /** Python's `str(n)` for an integer. */
  function Decimal(n: int): string
  {
    if n < 0 then "-" + Digits(-n) else Digits(n)
  }

  lemma {:induction false} DigitsValueOfDigits(n: nat)
    ensures DigitsValue(Digits(n)) == n
  {
    var d := Digits(n);
    if n >= 10 {
      DigitsValueOfDigits(n / 10);
      assert d[..|d| - 1] == Digits(n / 10);
    }
  }

  lemma DecimalStripped(n: int)
    ensures Strip(Decimal(n)) == Decimal(n)
  {
    var s := Decimal(n);
    StripExact([], s, []);
    assert [] + s + [] == s;
  }

  lemma ParseSignedDecimal(n: int)
    ensures ParseSigned(Decimal(n)) == Some(n)
  {
    var m: nat := if n < 0 then -n else n;
    DigitsValueOfDigits(m);
    var d := Digits(m);
    AllDigitsBody(d);
    if n < 0 {
      assert Decimal(n)[1..] == d;
    }
  }

  /** `int()` reads back every integer `str()` writes. */
  lemma ParseDecimal(n: int)
    ensures ParseInt(Decimal(n)) == Some(n)
  {
    var d := Decimal(n);
    DecimalStripped(n);
    ParseIntAround([], d, []);
    assert [] + d + [] == d;
    ParseSignedDecimal(n);
  }
}
