/**
 * The JavaScript string built-ins the extractor relies on: `trim`, `toLowerCase`,
 * `split`, `endsWith` and the unary `+` that turns a year string into a number.
 */
module JsString {
  import opened Wrappers

  /** ECMAScript WhiteSpace and LineTerminator code points: what `String.prototype.trim` removes. */
  predicate IsWhite(c: char) {
    c == '\t' || c == '\n' || c == '\U{B}' || c == '\U{C}' || c == '\r' || c == ' '
    || c == '\U{A0}' || c == '\U{1680}' || ('\U{2000}' <= c <= '\U{200A}')
    || c == '\U{2028}' || c == '\U{2029}' || c == '\U{202F}' || c == '\U{205F}'
    || c == '\U{3000}' || c == '\U{FEFF}'
  }

  /** `s.trim()`: white space dropped from both ends, so that neither end of the result is white space. */
  function Trim(s: string): (r: string)
    ensures |r| <= |s|
    ensures r == [] || (!IsWhite(r[0]) && !IsWhite(r[|r| - 1]))
    decreases |s|
  {
    if s != [] && IsWhite(s[0]) then Trim(s[1..])
    else if s != [] && IsWhite(s[|s| - 1]) then Trim(s[..|s| - 1])
    else s
  }

  predicate AllWhite(s: string) {
    forall k :: 0 <= k < |s| ==> IsWhite(s[k])
  }

  /** `trim` removes only padding: its result is a slice of `s` with nothing but white space on either side. */
  lemma {:induction false} TrimPadding(s: string) returns (a: nat, b: nat)
    ensures a <= b <= |s| && Trim(s) == s[a..b]
    ensures AllWhite(s[..a]) && AllWhite(s[b..])
    decreases |s|
  {
    if s != [] && IsWhite(s[0]) {
      var a', b' := TrimPadding(s[1..]);
      a, b := PadFront(s, a', b');
    } else if s != [] && IsWhite(s[|s| - 1]) {
      a, b := TrimPadding(s[..|s| - 1]);
      PadBack(s, a, b);
    } else {
      a, b := 0, |s|;
      assert s[0..|s|] == s;
    }
  }

  /** A white first character moves the slice of the rest one place to the right. */
  lemma PadFront(s: string, a': nat, b': nat) returns (a: nat, b: nat)
    requires s != [] && IsWhite(s[0])
    requires a' <= b' <= |s| - 1 && Trim(s[1..]) == s[1..][a'..b']
    requires AllWhite(s[1..][..a']) && AllWhite(s[1..][b'..])
    ensures a <= b <= |s| && Trim(s) == s[a..b]
    ensures AllWhite(s[..a]) && AllWhite(s[b..])
  {
    var t := s[1..];
    a, b := a' + 1, b' + 1;
    assert t[a'..b'] == s[a..b];
    assert s[b..] == t[b'..];
    forall k | 0 <= k < a ensures IsWhite(s[..a][k]) {
      if k > 0 {
        assert s[..a][k] == t[..a'][k - 1];
      }
    }
  }

  /** A white last character joins the padding after the slice of the rest. */
  lemma PadBack(s: string, a: nat, b: nat)
    requires s != [] && !IsWhite(s[0]) && IsWhite(s[|s| - 1])
    requires a <= b <= |s| - 1 && Trim(s[..|s| - 1]) == s[..|s| - 1][a..b]
    requires AllWhite(s[..|s| - 1][..a]) && AllWhite(s[..|s| - 1][b..])
    ensures Trim(s) == s[a..b]
    ensures AllWhite(s[..a]) && AllWhite(s[b..])
  {
    var t := s[..|s| - 1];
    TrimDropLast(s);
    assert t[a..b] == s[a..b];
    PadBackWhite(s, t, a, b);
  }

  lemma PadBackWhite(s: string, t: string, a: nat, b: nat)
    requires s != [] && t == s[..|s| - 1] && IsWhite(s[|s| - 1])
    requires a <= b <= |t| && AllWhite(t[..a]) && AllWhite(t[b..])
    ensures AllWhite(s[..a]) && AllWhite(s[b..])
  {
    assert s[..a] == t[..a];
    assert s[b..] == t[b..] + [s[|s| - 1]];
    AllWhiteSnoc(t[b..], s[|s| - 1]);
  }

  lemma TrimDropLast(s: string)
    requires s != [] && !IsWhite(s[0]) && IsWhite(s[|s| - 1])
    ensures Trim(s) == Trim(s[..|s| - 1])
  {
  }

  lemma AllWhiteSnoc(u: string, c: char)
    requires AllWhite(u) && IsWhite(c)
    ensures AllWhite(u + [c])
  {
    forall k | 0 <= k < |u| + 1 ensures IsWhite((u + [c])[k]) {
      if k < |u| {
        assert (u + [c])[k] == u[k];
      }
    }
  }

  /** A string that does not start or end with white space is its own trim. */
  lemma TrimUnpadded(s: string)
    requires s == [] || (!IsWhite(s[0]) && !IsWhite(s[|s| - 1]))
    ensures Trim(s) == s
  {
  }

  /** Trimming twice is trimming once. */
  lemma TrimIdempotent(s: string)
    ensures Trim(Trim(s)) == Trim(s)
  {
    TrimUnpadded(Trim(s));
  }

  /**
   * `toLowerCase` on one code point, for the ASCII and Latin-1 letters: `A`..`Z` and
   * U+00C0..U+00DE except the multiplication sign U+00D7 move down by 0x20.
   */
  function LowerChar(c: char): char {
    if 'A' <= c <= 'Z' || ('\U{C0}' <= c <= '\U{DE}' && c != '\U{D7}') then (c as int + 32) as char else c
  }

  /** `s.toLowerCase()`, code point by code point. */
  function Lower(s: string): (r: string)
    ensures |r| == |s|
    ensures forall k :: 0 <= k < |s| ==> r[k] == LowerChar(s[k])
    decreases |s|
  {
    if s == [] then [] else [LowerChar(s[0])] + Lower(s[1..])
  }

  /** Text with nothing to lower-case is left as it is. */
  lemma {:induction false} LowerFixed(s: string)
    requires forall k :: 0 <= k < |s| ==> LowerChar(s[k]) == s[k]
    ensures Lower(s) == s
    decreases |s|
  {
    if s != [] {
      LowerFixed(s[1..]);
      assert [s[0]] + s[1..] == s;
    }
  }

  /** `s.endsWith(c)` for a one-character suffix. */
  predicate EndsWith(s: string, c: char) {
    |s| > 0 && s[|s| - 1] == c
  }

  /** `s.split(sep)`: the pieces between the separators, of which there is always at least one. */
  function Split(s: string, sep: char): (pieces: seq<string>)
    ensures |pieces| >= 1
    ensures forall k :: 0 <= k < |pieces| ==> sep !in pieces[k]
    decreases |s|
  {
    if s == [] then [""]
    else
      var rest := Split(s[1..], sep);
      if s[0] == sep then [""] + rest
      else [[s[0]] + rest[0]] + rest[1..]
  }

  /** `pieces.join(sep)`: the inverse of `Split`. */
  function Join(pieces: seq<string>, sep: char): string
    requires |pieces| >= 1
    decreases |pieces|
  {
    if |pieces| == 1 then pieces[0] else pieces[0] + [sep] + Join(pieces[1..], sep)
  }

  /** Splitting loses nothing: joining the pieces back gives the original string. */
  lemma {:induction false} JoinSplit(s: string, sep: char)
    ensures Join(Split(s, sep), sep) == s
    decreases |s|
  {
    if s != [] {
      JoinSplit(s[1..], sep);
      var rest := Split(s[1..], sep);
      if s[0] != sep {
        if |rest| == 1 {
          assert Split(s, sep) == [[s[0]] + rest[0]];
        } else {
          assert Split(s, sep)[1..] == rest[1..];
          assert s == [s[0]] + s[1..];
        }
      }
    }
  }

  /** A string without the separator splits into itself alone. */
  lemma {:induction false} SplitNoSeparator(a: string, sep: char)
    requires sep !in a
    ensures Split(a, sep) == [a]
    decreases |a|
  {
    if a != [] {
      SplitNoSeparator(a[1..], sep);
      assert [a[0]] + a[1..] == a;
    }
  }

  /** The text before the first separator is the first piece; the rest splits on its own. */
  lemma {:induction false} SplitAtSeparator(a: string, sep: char, b: string)
    requires sep !in a
    ensures Split(a + [sep] + b, sep) == [a] + Split(b, sep)
    decreases |a|
  {
    if a == [] {
      assert a + [sep] + b == [sep] + b;
      assert ([sep] + b)[1..] == b;
    } else {
      SplitAtSeparator(a[1..], sep, b);
      assert (a + [sep] + b)[1..] == a[1..] + [sep] + b;
      assert [a[0]] + a[1..] == a;
    }
  }

  predicate IsDigit(c: char) {
    '0' <= c <= '9'
  }

  predicate AllDigits(s: string) {
    forall k :: 0 <= k < |s| ==> IsDigit(s[k])
  }

  /** The value of a string of decimal digits, most significant first. */
  function DigitsValue(s: string): nat
    requires AllDigits(s)
    decreases |s|
  {
    if s == [] then 0 else DigitsValue(s[..|s| - 1]) * 10 + (s[|s| - 1] as int - '0' as int)
  }

  /** The decimal numeral of `n`, without leading zeros: what `String(n)` gives. */
  function Decimal(n: nat): (s: string)
    ensures s != [] && AllDigits(s)
    ensures n >= 10 ==> s[0] != '0'
    decreases n
  {
    var d := ((n % 10) + '0' as int) as char;
    if n < 10 then [d] else Decimal(n / 10) + [d]
  }

  /** Reading back a numeral gives the number. */
  lemma {:induction false} DecimalRoundTrip(n: nat)
    ensures DigitsValue(Decimal(n)) == n
    decreases n
  {
    if n >= 10 {
      DecimalRoundTrip(n / 10);
      var s := Decimal(n);
      assert s[..|s| - 1] == Decimal(n / 10);
    }
  }

  /**
   * The unary plus `+s` on a string, for decimal integers: white space around the
   * numeral is ignored, a blank string is 0, and anything else is NaN (None).
   */
  function ToNumber(s: string): (r: Option<int>)
    ensures r.Some? <==> AllDigits(Trim(s))
    ensures r.Some? ==> r.value >= 0
  {
    var t := Trim(s);
    if t == [] then Some(0)
    else if AllDigits(t) then Some(DigitsValue(t))
    else None
  }

  /** The number a numeral stands for is the number it is read as. */
  lemma ToNumberDecimal(n: nat)
    ensures ToNumber(Decimal(n)) == Some(n)
  {
    var s := Decimal(n);
    assert !IsWhite(s[0]) && !IsWhite(s[|s| - 1]);
    TrimUnpadded(s);
    DecimalRoundTrip(n);
  }
}
