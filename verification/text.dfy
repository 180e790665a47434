/**
 * String helpers shared by the front end (JavaScript String methods) and the
 * back end (java.lang.String methods). Both languages trim and test blankness
 * against slightly different character sets, so each set is written out.
 * Case conversion is ASCII-only.
 */
module Text {
  import opened Wrappers

  /** Code points removed by Java's String.trim(): everything up to U+0020. */
  predicate IsJavaTrimChar(c: char) {
    c <= ' '
  }

  /** Code points for which Java's Character.isWhitespace holds (String.isBlank uses it). */
  predicate IsJavaWhitespace(c: char) {
    ('\t' <= c <= '\r') || ('\U{1C}' <= c <= ' ') || c == '\U{1680}'
    || ('\U{2000}' <= c <= '\U{2006}') || ('\U{2008}' <= c <= '\U{200A}')
    || c == '\U{2028}' || c == '\U{2029}' || c == '\U{205F}' || c == '\U{3000}'
  }

  /** JavaScript WhiteSpace and LineTerminator code points (String.prototype.trim, parseInt). */
  predicate IsJsWhitespace(c: char) {
    ('\t' <= c <= '\r') || c == ' ' || c == '\U{A0}' || c == '\U{1680}'
    || ('\U{2000}' <= c <= '\U{200A}') || c == '\U{2028}' || c == '\U{2029}'
    || c == '\U{202F}' || c == '\U{205F}' || c == '\U{3000}' || c == '\U{FEFF}'
  }

  /** Drops the longest prefix of s made of characters Java's trim() removes. */
  function JavaStripStart(s: string): (r: string)
    ensures |r| <= |s| && r == s[|s| - |r|..]
    ensures r != [] ==> !IsJavaTrimChar(r[0])
  {
    if s != [] && IsJavaTrimChar(s[0]) then JavaStripStart(s[1..]) else s
  }

  /** Drops the longest suffix of s made of characters Java's trim() removes. */
  function JavaStripEnd(s: string): (r: string)
    ensures r <= s
    ensures r != [] ==> !IsJavaTrimChar(r[|r| - 1])
  {
    if s != [] && IsJavaTrimChar(s[|s| - 1]) then JavaStripEnd(s[..|s| - 1]) else s
  }

  /** Every character JavaStripStart drops is one of the characters Java's trim() removes. */
  lemma {:induction false} JavaStripStartDrops(s: string)
    ensures forall k :: 0 <= k < |s| - |JavaStripStart(s)| ==> IsJavaTrimChar(s[k])
  {
    if s != [] && IsJavaTrimChar(s[0]) {
      JavaStripStartDrops(s[1..]);
      forall k | 1 <= k < |s| - |JavaStripStart(s)| ensures IsJavaTrimChar(s[k]) {
        assert s[k] == s[1..][k - 1];
      }
    }
  }

  /** Every character JavaStripEnd drops is one of the characters Java's trim() removes. */
  lemma {:induction false} JavaStripEndDrops(s: string)
    ensures forall k :: |JavaStripEnd(s)| <= k < |s| ==> IsJavaTrimChar(s[k])
  {
    if s != [] && IsJavaTrimChar(s[|s| - 1]) {
      JavaStripEndDrops(s[..|s| - 1]);
      forall k | |JavaStripEnd(s)| <= k < |s| - 1 ensures IsJavaTrimChar(s[k]) {
        assert s[k] == s[..|s| - 1][k];
      }
    }
  }

  /** Drops the longest prefix of s made of JavaScript whitespace. */
  function JsStripStart(s: string): (r: string)
    ensures |r| <= |s| && r == s[|s| - |r|..]
    ensures r != [] ==> !IsJsWhitespace(r[0])
  {
    if s != [] && IsJsWhitespace(s[0]) then JsStripStart(s[1..]) else s
  }

  /** Drops the longest suffix of s made of JavaScript whitespace. */
  function JsStripEnd(s: string): (r: string)
    ensures r <= s
    ensures r != [] ==> !IsJsWhitespace(r[|r| - 1])
  {
    if s != [] && IsJsWhitespace(s[|s| - 1]) then JsStripEnd(s[..|s| - 1]) else s
  }

  /** Every character JsStripStart drops is one of the JavaScript whitespace. */
  lemma {:induction false} JsStripStartDrops(s: string)
    ensures forall k :: 0 <= k < |s| - |JsStripStart(s)| ==> IsJsWhitespace(s[k])
  {
    if s != [] && IsJsWhitespace(s[0]) {
      JsStripStartDrops(s[1..]);
      forall k | 1 <= k < |s| - |JsStripStart(s)| ensures IsJsWhitespace(s[k]) {
        assert s[k] == s[1..][k - 1];
      }
    }
  }

  /** Every character JsStripEnd drops is one of the JavaScript whitespace. */
  lemma {:induction false} JsStripEndDrops(s: string)
    ensures forall k :: |JsStripEnd(s)| <= k < |s| ==> IsJsWhitespace(s[k])
  {
    if s != [] && IsJsWhitespace(s[|s| - 1]) {
      JsStripEndDrops(s[..|s| - 1]);
      forall k | |JsStripEnd(s)| <= k < |s| - 1 ensures IsJsWhitespace(s[k]) {
        assert s[k] == s[..|s| - 1][k];
      }
    }
  }

  /**
   * t is s with leading and trailing characters that Java's trim() removes
   * taken off, and nothing else: a slice s[i..j] whose removed ends consist of
   * such characters only, and which neither begins nor ends with one.
   */
  ghost predicate IsJavaTrimmed(s: string, t: string) {
    && (t != [] ==> !IsJavaTrimChar(t[0]) && !IsJavaTrimChar(t[|t| - 1]))
    && exists i, j :: IsJavaTrimSlice(s, t, i, j)
  }

  ghost predicate IsJavaTrimSlice(s: string, t: string, i: int, j: int) {
    && 0 <= i <= j <= |s| && t == s[i..j]
    && (forall k :: 0 <= k < i ==> IsJavaTrimChar(s[k]))
    && (forall k :: j <= k < |s| ==> IsJavaTrimChar(s[k]))
  }

  /** The same as IsJavaTrimmed, for JavaScript's whitespace. */
  ghost predicate IsJsTrimmed(s: string, t: string) {
    && (t != [] ==> !IsJsWhitespace(t[0]) && !IsJsWhitespace(t[|t| - 1]))
    && exists i, j :: IsJsTrimSlice(s, t, i, j)
  }

  ghost predicate IsJsTrimSlice(s: string, t: string, i: int, j: int) {
    && 0 <= i <= j <= |s| && t == s[i..j]
    && (forall k :: 0 <= k < i ==> IsJsWhitespace(s[k]))
    && (forall k :: j <= k < |s| ==> IsJsWhitespace(s[k]))
  }

  lemma SliceOfSuffix<T>(s: seq<T>, i: nat, m: nat)
    requires i + m <= |s|
    ensures s[i..][..m] == s[i..i + m]
  {
  }

  lemma PrefixIsSlice<T>(r: seq<T>, t: seq<T>)
    requires r <= t
    ensures r == t[..|r|]
  {
  }

  /** Java's String.trim(). */
  function JavaTrim(s: string): (r: string)
    ensures r != [] ==> !IsJavaTrimChar(r[0]) && !IsJavaTrimChar(r[|r| - 1])
    ensures |r| <= |s|
  {
    JavaStripEnd(JavaStripStart(s))
  }

  /** JavaTrim removes exactly the leading and trailing characters that Java's String.trim() removes. */
  lemma JavaTrimIsTrim(s: string)
    ensures IsJavaTrimmed(s, JavaTrim(s))
  {
    var t := JavaStripStart(s);
    var r := JavaTrim(s);
    var i := |s| - |t|;
    assert IsJavaTrimSlice(s, r, i, i + |r|) by {
      SliceOfSuffix(s, i, |r|);
      PrefixIsSlice(r, t);
      JavaStripStartDrops(s);
      JavaTrimDropsAtEnd(s);
    }
  }

  lemma JavaTrimDropsAtEnd(s: string)
    ensures var t := JavaStripStart(s); var n := |s| - |t| + |JavaTrim(s)|;
      forall k :: n <= k < |s| ==> IsJavaTrimChar(s[k])
  {
    var t := JavaStripStart(s);
    JavaStripEndDrops(t);
    forall k | |s| - |t| + |JavaStripEnd(t)| <= k < |s| ensures IsJavaTrimChar(s[k]) {
      assert s[k] == t[k - (|s| - |t|)];
    }
  }

  /** JavaScript's String.prototype.trim(). */
  function JsTrim(s: string): (r: string)
    ensures r != [] ==> !IsJsWhitespace(r[0]) && !IsJsWhitespace(r[|r| - 1])
    ensures |r| <= |s|
  {
    JsStripEnd(JsStripStart(s))
  }

  /** JsTrim removes exactly the leading and trailing characters that JavaScript's String.prototype.trim() removes. */
  lemma JsTrimIsTrim(s: string)
    ensures IsJsTrimmed(s, JsTrim(s))
  {
    var t := JsStripStart(s);
    var r := JsTrim(s);
    var i := |s| - |t|;
    assert IsJsTrimSlice(s, r, i, i + |r|) by {
      SliceOfSuffix(s, i, |r|);
      PrefixIsSlice(r, t);
      JsStripStartDrops(s);
      JsTrimDropsAtEnd(s);
    }
  }

  lemma JsTrimDropsAtEnd(s: string)
    ensures var t := JsStripStart(s); var n := |s| - |t| + |JsTrim(s)|;
      forall k :: n <= k < |s| ==> IsJsWhitespace(s[k])
  {
    var t := JsStripStart(s);
    JsStripEndDrops(t);
    forall k | |s| - |t| + |JsStripEnd(t)| <= k < |s| ensures IsJsWhitespace(s[k]) {
      assert s[k] == t[k - (|s| - |t|)];
    }
  }

  /** Java's String.isBlank(): empty or only whitespace. */
  predicate JavaIsBlank(s: string) {
    s == [] || (IsJavaWhitespace(s[0]) && JavaIsBlank(s[1..]))
  }

  function LowerChar(c: char): char {
    if 'A' <= c <= 'Z' then (c as int + 32) as char else c
  }

  /** toLowerCase(), restricted to ASCII letters. */
  function ToLower(s: string): (r: string)
    ensures |r| == |s|
    ensures forall i :: 0 <= i < |s| ==> r[i] == LowerChar(s[i])
  {
    if s == [] then [] else [LowerChar(s[0])] + ToLower(s[1..])
  }

  /** Lower-casing a character cannot create a character that trimming removes, or remove one. */
  lemma LowerKeepsTrimChars(c: char)
    ensures IsJavaTrimChar(LowerChar(c)) <==> IsJavaTrimChar(c)
    ensures IsJsWhitespace(LowerChar(c)) <==> IsJsWhitespace(c)
  {
  }

  /** Trimming a string that does not begin or end with a trimmed character leaves it as it is. */
  lemma JavaTrimOfTrimmed(s: string)
    requires s != [] ==> !IsJavaTrimChar(s[0]) && !IsJavaTrimChar(s[|s| - 1])
    ensures JavaTrim(s) == s
  {
    assert JavaStripStart(s) == s;
    assert JavaStripEnd(s) == s;
  }

  /** Trimming a string that does not begin or end with JavaScript whitespace leaves it as it is. */
  lemma JsTrimOfTrimmed(s: string)
    requires s != [] ==> !IsJsWhitespace(s[0]) && !IsJsWhitespace(s[|s| - 1])
    ensures JsTrim(s) == s
  {
    assert JsStripStart(s) == s;
    assert JsStripEnd(s) == s;
  }

  /** String.trim() is idempotent. */
  lemma JavaTrimIdempotent(s: string)
    ensures JavaTrim(JavaTrim(s)) == JavaTrim(s)
  {
    JavaTrimOfTrimmed(JavaTrim(s));
  }

  /** Lower-casing twice is lower-casing once. */
  lemma ToLowerIdempotent(s: string)
    ensures ToLower(ToLower(s)) == ToLower(s)
  {
  }

  /** trim().toLowerCase() is idempotent: its result is already trimmed and lower-cased. */
  lemma TrimLowerIdempotent(s: string)
    ensures ToLower(JavaTrim(ToLower(JavaTrim(s)))) == ToLower(JavaTrim(s))
  {
    var t := JavaTrim(s);
    var l := ToLower(t);
    if t != [] {
      LowerKeepsTrimChars(t[0]);
      LowerKeepsTrimChars(t[|t| - 1]);
    }
    JavaTrimOfTrimmed(l);
    ToLowerIdempotent(t);
  }

  /** s contains t as a contiguous substring (String.prototype.includes). */
  predicate Contains(s: string, t: string) {
    exists i :: 0 <= i <= |s| - |t| && t <= s[i..]
  }

  /** r can be obtained from s by deleting elements, keeping the order of the rest. */
  /** Concatenation regroups freely. */
  lemma ConcatAssociative<T>(a: seq<T>, b: seq<T>, c: seq<T>)
    ensures a + (b + c) == (a + b) + c
  {
  }

  /** A non-empty sequence is its front followed by its last element. */
  lemma SplitLast<T>(s: seq<T>)
    requires s != []
    ensures s == s[..|s| - 1] + [s[|s| - 1]]
  {
  }

  /** s read back to front. */
  function Reversed<T>(s: seq<T>): (r: seq<T>)
    ensures |r| == |s|
    ensures forall i :: 0 <= i < |s| ==> r[i] == s[|s| - 1 - i]
  {
    if s == [] then [] else [s[|s| - 1]] + Reversed(s[..|s| - 1])
  }

  predicate IsSubsequence<T(==)>(r: seq<T>, s: seq<T>)
    decreases |s|
  {
    if r == [] then true
    else if s == [] then false
    else (r[0] == s[0] && IsSubsequence(r[1..], s[1..])) || IsSubsequence(r, s[1..])
  }

  lemma {:induction false} SubsequenceOfSelf<T>(s: seq<T>)
    ensures IsSubsequence(s, s)
  {
    if s != [] {
      SubsequenceOfSelf(s[1..]);
    }
  }

  /** A subsequence stays one when the same element is put in front of both, or in front of the longer only. */
  lemma SubsequenceExtend<T>(x: T, r: seq<T>, s: seq<T>)
    requires IsSubsequence(r, s)
    ensures IsSubsequence([x] + r, [x] + s)
    ensures IsSubsequence(r, [x] + s)
  {
    assert ([x] + r)[1..] == r;
    assert ([x] + s)[1..] == s;
  }

  /** The parts of s between occurrences of sep: "a-b".split("-") and "".split("-") == [""]. */
  function Split(s: string, sep: char): (parts: seq<string>)
    ensures |parts| >= 1
  {
    SplitFrom(s, sep, [])
  }

  /** Split with the characters of the current part collected so far in cur. */
  function SplitFrom(s: string, sep: char, cur: string): (parts: seq<string>)
    requires forall i :: 0 <= i < |cur| ==> cur[i] != sep
    ensures |parts| >= 1
    decreases |s|
  {
    if s == [] then [cur]
    else if s[0] == sep then [cur] + SplitFrom(s[1..], sep, [])
    else SplitFrom(s[1..], sep, cur + [s[0]])
  }

  /** Joins parts with sep between them (Array.prototype.join). */
  function Join(parts: seq<string>, sep: string): string {
    if parts == [] then []
    else if |parts| == 1 then parts[0]
    else parts[0] + sep + Join(parts[1..], sep)
  }

  lemma {:induction false} SplitFromJoin(s: string, sep: char, cur: string)
    requires forall i :: 0 <= i < |cur| ==> cur[i] != sep
    ensures Join(SplitFrom(s, sep, cur), [sep]) == cur + s
    decreases |s|, 1
  {
    if s == [] {
    } else if s[0] == sep {
      SplitFromJoinAtSep(s, sep, cur);
    } else {
      SplitFromJoin(s[1..], sep, cur + [s[0]]);
      assert cur + [s[0]] + s[1..] == cur + s;
    }
  }

  /** SplitFromJoin when s starts with the separator: cur is closed and the rest is split afresh. */
  lemma {:induction false} SplitFromJoinAtSep(s: string, sep: char, cur: string)
    requires forall i :: 0 <= i < |cur| ==> cur[i] != sep
    requires s != [] && s[0] == sep
    ensures Join(SplitFrom(s, sep, cur), [sep]) == cur + s
    decreases |s|, 0
  {
    var rest := SplitFrom(s[1..], sep, []);
    assert SplitFrom(s, sep, cur) == [cur] + rest;
    assert Join(rest, [sep]) == s[1..] by {
      SplitFromJoin(s[1..], sep, []);
      assert [] + s[1..] == s[1..];
    }
    JoinCons(cur, rest, [sep]);
    assert s == [sep] + s[1..];
    assert cur + [sep] + s[1..] == cur + s;
  }

  /** Joining a first part in front of a non-empty list puts the separator between them. */
  lemma JoinCons(first: string, rest: seq<string>, sep: string)
    requires rest != []
    ensures Join([first] + rest, sep) == first + sep + Join(rest, sep)
  {
    assert ([first] + rest)[1..] == rest;
  }

  /** Splitting and joining back with the same separator gives the original string. */
  lemma SplitJoin(s: string, sep: char)
    ensures Join(Split(s, sep), [sep]) == s
  {
    SplitFromJoin(s, sep, []);
  }

  /** A string without the separator splits into itself alone. */
  lemma {:induction false} SplitNoSep(s: string, sep: char, cur: string)
    requires forall i :: 0 <= i < |cur| ==> cur[i] != sep
    requires forall i :: 0 <= i < |s| ==> s[i] != sep
    ensures SplitFrom(s, sep, cur) == [cur + s]
    decreases |s|
  {
    if s == [] {
      assert cur + s == cur;
    } else {
      SplitNoSep(s[1..], sep, cur + [s[0]]);
      assert cur + [s[0]] + s[1..] == cur + s;
    }
  }

  /** Splitting a + [sep] + b, with no separator in a, yields a followed by the parts of b. */
  lemma {:induction false} SplitAtSep(a: string, b: string, sep: char, cur: string)
    requires forall i :: 0 <= i < |cur| ==> cur[i] != sep
    requires forall i :: 0 <= i < |a| ==> a[i] != sep
    ensures SplitFrom(a + [sep] + b, sep, cur) == [cur + a] + SplitFrom(b, sep, [])
    decreases |a|
  {
    if a == [] {
      assert a + [sep] + b == [sep] + b;
      assert ([sep] + b)[1..] == b;
      assert cur + a == cur;
    } else {
      assert (a + [sep] + b)[1..] == a[1..] + [sep] + b;
      SplitAtSep(a[1..], b, sep, cur + [a[0]]);
      assert cur + [a[0]] + a[1..] == cur + a;
    }
  }

  predicate IsDigit(c: char) {
    '0' <= c <= '9'
  }

  predicate AllDigits(s: string) {
    forall i :: 0 <= i < |s| ==> IsDigit(s[i])
  }

  function DigitValue(c: char): nat
    requires IsDigit(c)
  {
    c as int - '0' as int
  }

  /** The value of a string of decimal digits. */
  function DigitsValue(s: string): nat
    requires AllDigits(s)
  {
    if s == [] then 0 else DigitsValue(s[..|s| - 1]) * 10 + DigitValue(s[|s| - 1])
  }

  /** Decimal representation of a natural number without leading zeros (String(n)). */
  function ShowNat(n: nat): (r: string)
    ensures r != [] && AllDigits(r)
    ensures n > 0 ==> r[0] != '0'
  {
    if n < 10 then [('0' as int + n) as char] else ShowNat(n / 10) + [('0' as int + n % 10) as char]
  }

  /** Reading back the decimal representation of n gives n. */
  lemma {:induction false} ShowNatValue(n: nat)
    ensures DigitsValue(ShowNat(n)) == n
  {
    if n >= 10 {
      ShowNatValue(n / 10);
      var s := ShowNat(n);
      assert s[..|s| - 1] == ShowNat(n / 10);
    }
  }

  /** The longest prefix of s made of decimal digits. */
  function DigitPrefix(s: string): (r: string)
    ensures r <= s && AllDigits(r)
    ensures |r| < |s| ==> !IsDigit(s[|r|])
  {
    if s != [] && IsDigit(s[0]) then [s[0]] + DigitPrefix(s[1..]) else []
  }

  /**
   * JavaScript's parseInt(s, 10): leading whitespace is skipped, an optional
   * sign is read, then the longest run of decimal digits; None stands for NaN.
   */
  function ParseInt(s: string): (r: Option<int>)
    ensures r.Some? ==> exists d :: d != [] && AllDigits(d) && (r.value == DigitsValue(d) || r.value == -(DigitsValue(d) as int))
  {
    SignedValue(JsStripStart(s))
  }

  /** parseInt of a string whose leading whitespace is already skipped. */
  function SignedValue(t: string): Option<int> {
    var negative := t != [] && t[0] == '-';
    var unsigned := if t != [] && (t[0] == '-' || t[0] == '+') then t[1..] else t;
    var digits := DigitPrefix(unsigned);
    if digits == [] then None
    else if negative then Some(-(DigitsValue(digits) as int))
    else Some(DigitsValue(digits))
  }

  /** parseInt reads back every decimal representation produced by String(n). */
  lemma ParseShowNat(n: nat)
    ensures ParseInt(ShowNat(n)) == Some(n)
  {
    ParseDigits(ShowNat(n));
    ShowNatValue(n);
  }

  lemma {:induction false} DigitPrefixAll(s: string)
    requires AllDigits(s)
    ensures DigitPrefix(s) == s
  {
    if s != [] {
      DigitPrefixAll(s[1..]);
    }
  }

  /** parseInt reads a plain string of decimal digits as its value. */
  lemma ParseDigits(d: string)
    requires d != [] && AllDigits(d)
    ensures ParseInt(d) == Some(DigitsValue(d) as int)
  {
    assert [] + [] + d + [] == d;
    ParseIntOfLayout([], [], d, []);
  }

  /**
   * s split the way parseInt reads it: leading JavaScript whitespace ws, at
   * most one sign, the longest run of digits d, and the unread rest.
   */
  predicate IsNumberLayout(ws: string, sign: string, d: string, rest: string) {
    && (forall i :: 0 <= i < |ws| ==> IsJsWhitespace(ws[i]))
    && (sign == [] || sign == ['+'] || sign == ['-'])
    && AllDigits(d)
    && (rest == [] || !IsDigit(rest[0]))
    && (sign + d + rest == [] || !IsJsWhitespace((sign + d + rest)[0]))
    && (sign == [] && d == [] && rest != [] ==> rest[0] != '+' && rest[0] != '-')
  }

  /**
   * parseInt reads the digit run after the whitespace and the sign: NaN when
   * that run is empty, otherwise its value, negated after a '-'.
   */
  lemma ParseIntOfLayout(ws: string, sign: string, d: string, rest: string)
    requires IsNumberLayout(ws, sign, d, rest)
    ensures ParseInt(ws + sign + d + rest)
      == if d == [] then None
         else if sign == ['-'] then Some(-(DigitsValue(d) as int))
         else Some(DigitsValue(d) as int)
  {
    var s, t := ws + sign + d + rest, sign + d + rest;
    assert JsStripStart(s) == t by {
      ConcatAssociative(ws, sign + d, rest);
      ConcatAssociative(ws, sign, d);
      JsStripStartSkips(ws, t);
    }
    assert t == sign + (d + rest) by {
      ConcatAssociative(sign, d, rest);
    }
    DigitPrefixOf(d, rest);
    SignedValueOf(sign, d + rest, d);
  }

  /** After the whitespace: the sign decides the sign, the digit run the magnitude. */
  lemma SignedValueOf(sign: string, unsigned: string, d: string)
    requires sign == [] || sign == ['+'] || sign == ['-']
    requires sign == [] && unsigned != [] ==> unsigned[0] != '+' && unsigned[0] != '-'
    requires DigitPrefix(unsigned) == d
    ensures SignedValue(sign + unsigned)
      == if d == [] then None
         else if sign == ['-'] then Some(-(DigitsValue(d) as int))
         else Some(DigitsValue(d) as int)
  {
    var t := sign + unsigned;
    if sign != [] {
      assert t[0] == sign[0] && t[1..] == unsigned;
      assert DigitPrefix(t[1..]) == d;
    } else {
      assert t == unsigned;
    }
  }

  /** Every string has the layout parseInt reads, so the lemma above covers every input. */
  lemma EveryStringHasNumberLayout(s: string)
    ensures exists ws, sign, d, rest :: IsNumberLayout(ws, sign, d, rest) && s == ws + sign + d + rest
  {
    var ws, sign, d, rest := NumberLayoutOf(s);
  }

  /** The layout of s: its whitespace, sign, digit run and rest. */
  lemma NumberLayoutOf(s: string) returns (ws: string, sign: string, d: string, rest: string)
    ensures IsNumberLayout(ws, sign, d, rest) && s == ws + sign + d + rest
  {
    var t := JsStripStart(s);
    ws := s[..|s| - |t|];
    assert s == ws + t by {
      SplitAt(s, |s| - |t|);
    }
    assert forall i :: 0 <= i < |ws| ==> IsJsWhitespace(ws[i]) by {
      JsStripStartDrops(s);
    }
    sign, d, rest := SignedLayoutOf(t);
    assert s == ws + sign + d + rest by {
      ConcatAssociative(ws, sign + d, rest);
      ConcatAssociative(ws, sign, d);
    }
  }

  /** The sign, digit run and rest of a string that parseInt reads after the whitespace. */
  lemma SignedLayoutOf(t: string) returns (sign: string, d: string, rest: string)
    ensures t == sign + d + rest
    ensures sign == [] || sign == ['+'] || sign == ['-']
    ensures AllDigits(d) && (rest == [] || !IsDigit(rest[0]))
    ensures sign == [] && d == [] && rest != [] ==> rest[0] != '+' && rest[0] != '-'
  {
    var u: string;
    if t != [] && (t[0] == '-' || t[0] == '+') {
      sign, u := [t[0]], t[1..];
      assert t == sign + u;
    } else {
      sign, u := [], t;
      assert t == sign + u;
    }
    d := DigitPrefix(u);
    rest := u[|d|..];
    assert u == d + rest by {
      PrefixIsSlice(d, u);
      SplitAt(u, |d|);
    }
    ConcatAssociative(sign, d, rest);
  }

  /** A sequence is its first k elements followed by the others. */
  lemma SplitAt<T>(s: seq<T>, k: nat)
    requires k <= |s|
    ensures s == s[..k] + s[k..]
  {
  }

  lemma {:induction false} JsStripStartSkips(ws: string, t: string)
    requires forall i :: 0 <= i < |ws| ==> IsJsWhitespace(ws[i])
    requires t == [] || !IsJsWhitespace(t[0])
    ensures JsStripStart(ws + t) == t
  {
    if ws != [] {
      assert (ws + t)[1..] == ws[1..] + t;
      JsStripStartSkips(ws[1..], t);
    }
  }

  lemma {:induction false} DigitPrefixOf(d: string, rest: string)
    requires AllDigits(d)
    requires rest == [] || !IsDigit(rest[0])
    ensures DigitPrefix(d + rest) == d
  {
    if d != [] {
      assert (d + rest)[1..] == d[1..] + rest;
      DigitPrefixOf(d[1..], rest);
      assert [d[0]] + d[1..] == d;
    } else {
      assert d + rest == rest;
    }
  }

  /** String(i) for an integer i. */
  function ShowInt(i: int): (r: string)
    ensures i >= 0 ==> r == ShowNat(i)
  {
    if i < 0 then ['-'] + ShowNat(-i) else ShowNat(i)
  }

  /** s.padStart(2, "0"). */
  function PadStart2(s: string): (r: string)
    ensures |r| == if |s| >= 2 then |s| else 2
    ensures r[|r| - |s|..] == s
    ensures forall i :: 0 <= i < |r| - |s| ==> r[i] == '0'
  {
    if |s| >= 2 then s else if |s| == 1 then ['0'] + s else ['0', '0']
  }

  /** String(n).padStart(2, "0") for a natural number n: its digits, with a leading zero below 10. */
  function Pad2(n: nat): (r: string)
    ensures |r| == if n < 100 then 2 else |ShowNat(n)|
    ensures AllDigits(r)
    ensures DigitsValue(r) == n
  {
    ShowNatValue(n);
    var s := ShowNat(n);
    if |s| >= 2 then s
    else
      assert DigitsValue(['0'] + s) == n by {
        assert (['0'] + s)[..1] == ['0'];
      }
      PadStart2(s)
  }
}
