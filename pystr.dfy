/** The Python string builtins the result log relies on: `str.strip`,
    `str.split` with a separator, `str.replace` by the empty string,
    `str.startswith`, `in`, `str.lower() == "true"`, `int()` and `float()`
    on text, and the decimal text `f'{n}'` of an integer. */
module PyStr {
  import opened Py

  /** `str.isspace()` of one character: the characters `str.strip()`
      removes. */
  predicate IsSpace(c: char)
  {
    c == ' ' || '\t' <= c <= '\r' || '\U{1C}' <= c <= '\U{1F}' || c == '\U{85}' || c == '\U{A0}' ||
    c == '\U{1680}' || '\U{2000}' <= c <= '\U{200A}' || c == '\U{2028}' || c == '\U{2029}' ||
    c == '\U{202F}' || c == '\U{205F}' || c == '\U{3000}'
  }

  predicate IsQuote(c: char)
  {
    c == '"'
  }

  /** How many leading characters of s satisfy f. */
  function Lead(s: string, f: char -> bool): (k: nat)
    ensures k <= |s| && (forall i :: 0 <= i < k ==> f(s[i])) && (k < |s| ==> !f(s[k]))
  {
    if |s| > 0 && f(s[0]) then 1 + Lead(s[1..], f) else 0
  }

  /** How many trailing characters of s satisfy f. */
  function Trail(s: string, f: char -> bool): (k: nat)
    ensures k <= |s| && (forall i :: |s| - k <= i < |s| ==> f(s[i])) && (k < |s| ==> !f(s[|s| - 1 - k]))
  {
    if |s| > 0 && f(s[|s| - 1]) then 1 + Trail(s[..|s| - 1], f) else 0
  }

  /** Drops the characters that satisfy f from both ends. */
  function StripBy(s: string, f: char -> bool): string
  {
    var t := s[Lead(s, f)..];
    t[..|t| - Trail(t, f)]
  }

  /** `s.strip()`. */
  function Strip(s: string): string
  {
    StripBy(s, IsSpace)
  }

  /** `s.strip('"')`. */
  function StripQuotes(s: string): string
  {
    StripBy(s, IsQuote)
  }

  /** Whether every character of s satisfies f. */
  predicate All(s: string, f: char -> bool)
  {
    forall i :: 0 <= i < |s| ==> f(s[i])
  }

  /** Text whose ends do not satisfy f is left alone by StripBy, and so is
      what lies between padding that satisfies f. */
  lemma StripPadded(p: string, s: string, q: string, f: char -> bool)
    requires All(p, f) && All(q, f)
    requires |s| > 0 ==> !f(s[0]) && !f(s[|s| - 1])
    ensures StripBy(p + s + q, f) == s
  {
    var x := p + s + q;
    if |s| > 0 {
      assert x[|p|] == s[0];
      assert Lead(x, f) == |p|;
      var t := x[|p|..];
      assert t == s + q;
      assert t[|s| - 1] == s[|s| - 1];
      assert Trail(t, f) == |q|;
      assert t[..|s|] == s;
    } else {
      assert Lead(x, f) == |x|;
    }
  }

  /** `s.startswith(p)`. */
  predicate StartsWith(s: string, p: string)
  {
    |p| <= |s| && s[..|p|] == p
  }

  /** Whether sep occurs in s at i. */
  predicate At(s: string, sep: string, i: nat)
  {
    i + |sep| <= |s| && s[i..i + |sep|] == sep
  }

  /** The first occurrence of sep in s at i or later. */
  function FindFrom(s: string, sep: string, i: nat): (r: Option<nat>)
    requires i <= |s|
    ensures r.Some? ==> i <= r.value && At(s, sep, r.value)
    ensures forall j: nat :: i <= j && (r.None? || j < r.value) ==> !At(s, sep, j)
    decreases |s| - i
  {
    if At(s, sep, i) then Some(i)
    else if i + |sep| >= |s| then None
    else FindFrom(s, sep, i + 1)
  }

  /** `s.find(sep)`, as an Option. */
  function Find(s: string, sep: string): (r: Option<nat>)
    ensures r.Some? ==> At(s, sep, r.value)
    ensures forall j: nat :: (r.None? || j < r.value) ==> !At(s, sep, j)
  {
    FindFrom(s, sep, 0)
  }

  /** `sub in s`. */
  predicate Contains(s: string, sub: string)
  {
    Find(s, sub).Some?
  }

  /** `s.split(sep)` for a non-empty separator: the pieces between the
      occurrences found from left to right. */
  function Split(s: string, sep: string): (r: seq<string>)
    requires |sep| > 0
    ensures |r| >= 1
    decreases |s|
  {
    match Find(s, sep)
    case None => [s]
    case Some(i) => [s[..i]] + Split(s[i + |sep|..], sep)
  }

  /** `sep.join(pieces)`. */
  function Join(pieces: seq<string>, sep: string): string
  {
    if |pieces| == 0 then "" else if |pieces| == 1 then pieces[0] else pieces[0] + sep + Join(pieces[1..], sep)
  }

  /** Splitting and joining back gives the text again. */
  lemma {:induction false} SplitJoin(s: string, sep: string)
    requires |sep| > 0
    ensures Join(Split(s, sep), sep) == s
    decreases |s|
  {
    var f := Find(s, sep);
    if f.Some? {
      var i, rest := f.value, s[f.value + |sep|..];
      SplitUnfold(s, sep, i);
      SplitJoin(rest, sep);
      JoinCons(s[..i], Split(rest, sep), sep);
      assert s == s[..i] + sep + rest;
    }
  }

  /** One occurrence of the separator splits off the first piece. */
  lemma SplitUnfold(s: string, sep: string, i: nat)
    requires |sep| > 0 && Find(s, sep) == Some(i)
    ensures Split(s, sep) == [s[..i]] + Split(s[i + |sep|..], sep)
  {
  }

  lemma JoinCons(x: string, r: seq<string>, sep: string)
    requires |r| >= 1
    ensures Join([x] + r, sep) == x + sep + Join(r, sep)
  {
    assert ([x] + r)[1..] == r;
  }

  /** Joining one more piece adds the separator and the piece. */
  lemma {:induction false} JoinSnoc(ls: seq<string>, l: string, sep: string)
    requires |ls| >= 1
    ensures Join(ls + [l], sep) == Join(ls, sep) + sep + l
    decreases |ls|
  {
    if |ls| == 1 {
      assert (ls + [l])[1..] == [l];
    } else {
      JoinSnoc(ls[1..], l, sep);
      assert (ls + [l])[1..] == ls[1..] + [l];
    }
  }

  /** No piece of a split holds the separator. */
  lemma {:induction false} SplitPieces(s: string, sep: string)
    requires |sep| > 0
    ensures forall k :: 0 <= k < |Split(s, sep)| ==> !Contains(Split(s, sep)[k], sep)
    decreases |s|
  {
    var f := Find(s, sep);
    if f.Some? {
      var i, rest := f.value, s[f.value + |sep|..];
      SplitUnfold(s, sep, i);
      SplitPieces(rest, sep);
      PrefixFree(s, sep, i);
    }
  }

  /** Text without the separator is one piece. */
  lemma SplitAbsent(s: string, sep: string)
    requires |sep| > 0 && !Contains(s, sep)
    ensures Split(s, sep) == [s]
  {
  }

  /** Splitting a + c + b on the one-character separator c, where a does
      not hold c. */
  lemma SplitFirst(a: string, c: string, b: string)
    requires |c| == 1 && !Contains(a, c)
    ensures Split(a + c + b, c) == [a] + Split(b, c)
  {
    var s := a + c + b;
    assert At(s, c, |a|) by {
      assert s[|a|..|a| + 1] == c;
    }
    forall j: nat | j < |a|
      ensures !At(s, c, j)
    {
      assert !At(a, c, j);
      assert s[j..j + 1] == a[j..j + 1];
    }
    assert Find(s, c) == Some(|a|);
    assert s[..|a|] == a && s[|a| + 1..] == b;
  }

  /** `s.replace(pat, '')` for a non-empty pattern: every occurrence found
      from left to right is removed. */
  function Remove(s: string, pat: string): (r: string)
    requires |pat| > 0
    ensures |r| <= |s|
    decreases |s|
  {
    match Find(s, pat)
    case None => s
    case Some(i) => s[..i] + Remove(s[i + |pat|..], pat)
  }

  /** `s.split(':', 1)` on text that holds the colon: the text before the
      first colon and the text after it. */
  function SplitOnce(s: string, c: char): (r: (string, string))
    requires Contains(s, [c])
    ensures r.0 + [c] + r.1 == s && !Contains(r.0, [c])
  {
    var i := Find(s, [c]).value;
    PrefixFree(s, [c], i);
    assert s == s[..i] + [c] + s[i + 1..];
    (s[..i], s[i + 1..])
  }

  /** The text before the first occurrence of sep does not hold sep. */
  lemma PrefixFree(s: string, sep: string, i: nat)
    requires |sep| > 0 && i <= |s| && forall j: nat :: j < i ==> !At(s, sep, j)
    ensures !Contains(s[..i], sep)
  {
    if Contains(s[..i], sep) {
      var j := Find(s[..i], sep).value;
      assert s[..i][j..j + |sep|] == s[j..j + |sep|];
      assert At(s, sep, j);
    }
  }

  /** `s.lower() == 'true'`: the four letters of "true" in any case (no
      other character lowers to one of them). */
  predicate IsTrueText(s: string)
  {
    |s| == 4 && (s[0] == 't' || s[0] == 'T') && (s[1] == 'r' || s[1] == 'R') &&
    (s[2] == 'u' || s[2] == 'U') && (s[3] == 'e' || s[3] == 'E')
  }

  predicate IsDigit(c: char)
  {
    '0' <= c <= '9'
  }

  /** Python's `digitpart`: digits, single underscores allowed between two
      digits. */
  predicate DigitPart(s: string)
  {
    |s| > 0 && IsDigit(s[0]) && IsDigit(s[|s| - 1]) && forall i :: 0 <= i < |s| ==> DigitOrJoin(s, i)
  }

  /** The character at i is a digit, or an underscore before a digit. */
  predicate DigitOrJoin(s: string, i: nat)
    requires i < |s|
  {
    IsDigit(s[i]) || (s[i] == '_' && i + 1 < |s| && IsDigit(s[i + 1]))
  }

  /** The number a digit part spells, underscores ignored. */
  function DigitsValue(s: string): nat
  {
    if |s| == 0 then 0
    else if IsDigit(s[|s| - 1]) then DigitsValue(s[..|s| - 1]) * 10 + (s[|s| - 1] as int - '0' as int)
    else DigitsValue(s[..|s| - 1])
  }

  /** The optional sign: whether it is a minus, and the text after it. */
  function Sign(s: string): (r: (bool, string))
    ensures |r.1| <= |s|
  {
    if |s| > 0 && (s[0] == '-' || s[0] == '+') then (s[0] == '-', s[1..]) else (false, s)
  }

  /** `int(s)`: surrounding whitespace, an optional sign and a digit part;
      None where Python raises ValueError. */
  function ParseInt(s: string): (r: Option<int>)
  {
    var (neg, body) := Sign(Strip(s));
    var v: int := DigitsValue(body);
    if DigitPart(body) then Some(if neg then -v else v) else None
  }

  /** 10 to the n. */
  function Pow10(n: nat): (r: nat)
    ensures r >= 1
  {
    if n == 0 then 1 else 10 * Pow10(n - 1)
  }

  /** Number of digits in a digit part. */
  function DigitCount(s: string): nat
  {
    if |s| == 0 then 0 else DigitCount(s[..|s| - 1]) + (if IsDigit(s[|s| - 1]) then 1 else 0)
  }

  /** The value of a decimal mantissa `int.frac`, `int.` or `.frac`. */
  function Mantissa(s: string): Option<real>
  {
    match Find(s, ".")
    case None => if DigitPart(s) then Some(DigitsValue(s) as real) else None
    case Some(i) =>
      var (w, f) := (s[..i], s[i + 1..]);
      if (w == "" || DigitPart(w)) && (f == "" || DigitPart(f)) && (w != "" || f != "") then
        Some(DigitsValue(w) as real + DigitsValue(f) as real / Pow10(DigitCount(f)) as real)
      else None
  }

  /** `float(s)` for decimal text: surrounding whitespace, an optional
      sign, a mantissa and an optional exponent; None where Python raises
      ValueError and for the words inf, infinity and nan. */
  function ParseFloat(s: string): Option<real>
  {
    var (neg, body) := Sign(Strip(s));
    var e := match Find(body, "e") case Some(i) => Some(i) case None => Find(body, "E");
    var (m, x) := match e case Some(i) => (body[..i], Some(body[i + 1..])) case None => (body, None);
    var mv := Mantissa(m);
    var xv := match x case None => Some(0) case Some(t) => ParseExponent(t);
    if mv.Some? && xv.Some? then
      var v := if xv.value >= 0 then mv.value * Pow10(xv.value) as real else mv.value / Pow10(-xv.value) as real;
      Some(if neg then -v else v)
    else None
  }

  /** The exponent after `e`: an optional sign and a digit part. */
  function ParseExponent(s: string): Option<int>
  {
    var (neg, body) := Sign(s);
    var v: int := DigitsValue(body);
    if DigitPart(body) then Some(if neg then -v else v) else None
  }

  /** `int(s)` with the ValueError fallback of 0. */
  function IntOr0(s: string): int
  {
    match ParseInt(s) case Some(i) => i case None => 0
  }

  /** `float(s)` with the ValueError fallback of 0.0. */
  function FloatOr0(s: string): real
  {
    match ParseFloat(s) case Some(r) => r case None => 0.0
  }

  function Digit(d: nat): (c: char)
    requires d < 10
    ensures IsDigit(c) && c as int - '0' as int == d
  {
    (d + '0' as int) as char
  }

  /** `f'{n}'` for a natural number: its decimal digits. */
  function NatText(n: nat): (s: string)
    ensures |s| > 0 && forall i :: 0 <= i < |s| ==> IsDigit(s[i])
    decreases n
  {
    if n < 10 then [Digit(n)] else NatText(n / 10) + [Digit(n % 10)]
  }

  /** `f'{i}'` for an integer: a minus sign before negative numbers. */
  function IntText(i: int): string
  {
    if i < 0 then "-" + NatText(-i) else NatText(i)
  }

  /** The digits of n are a digit part worth n. */
  lemma {:induction false} NatTextValue(n: nat)
    ensures DigitPart(NatText(n)) && DigitsValue(NatText(n)) == n
    decreases n
  {
    var s := NatText(n);
    if n >= 10 {
      NatTextValue(n / 10);
      assert s[..|s| - 1] == NatText(n / 10);
    } else {
      assert s[..0] == "";
    }
  }

  /** Text with no whitespace at either end is its own strip. */
  lemma StripClean(s: string)
    requires |s| > 0 ==> !IsSpace(s[0]) && !IsSpace(s[|s| - 1])
    ensures Strip(s) == s
  {
    StripPadded("", s, "", IsSpace);
    assert "" + s + "" == s;
  }

  /** `int(f'{i}') == i`. */
  lemma IntTextRoundTrip(i: int)
    ensures ParseInt(IntText(i)) == Some(i)
  {
    var s := IntText(i);
    var n: nat := if i < 0 then -i else i;
    NatTextValue(n);
    var d := NatText(n);
    StripClean(s);
    if i < 0 {
      assert s[1..] == d;
      assert Sign(s) == (true, d);
    } else {
      assert Sign(s) == (false, d);
    }
  }

  /** `sub in s` holds exactly when sub occurs somewhere in s. */
  lemma ContainsAt(s: string, sep: string, j: nat)
    requires At(s, sep, j)
    ensures Contains(s, sep)
  {
  }

  /** A one-character needle occurs iff the character is a member. */
  lemma ContainsChar(s: string, c: char)
    ensures Contains(s, [c]) <==> c in s
  {
    if c in s {
      var j :| 0 <= j < |s| && s[j] == c;
      assert s[j..j + 1] == [c];
      ContainsAt(s, [c], j);
    }
    if Contains(s, [c]) {
      var j := Find(s, [c]).value;
      assert s[j..j + 1][0] == s[j];
    }
  }

  /** A needle whose first character is absent does not occur. */
  lemma AbsentHead(s: string, sep: string)
    requires |sep| > 0 && sep[0] !in s
    ensures !Contains(s, sep)
  {
  }

  /** An occurrence in s that does not run past the prefix x lies in x. */
  lemma AtPrefix(x: string, y: string, sep: string, j: nat)
    requires At(x + y, sep, j) && j + |sep| <= |x|
    ensures At(x, sep, j)
  {
    assert x[j..j + |sep|] == (x + y)[j..j + |sep|];
  }

  /** An occurrence covers its characters. */
  lemma AtCovers(s: string, sep: string, j: nat, k: nat)
    requires At(s, sep, j) && j <= k < j + |sep|
    ensures s[k] in sep
  {
    assert s[j..j + |sep|][k - j] == s[k];
  }

  /** An occurrence in x + y that runs past the end of x covers the last
      character of x when it starts inside x, and the first of y when it
      ends inside y. */
  lemma AtStraddle(x: string, y: string, sep: string, j: nat)
    requires At(x + y, sep, j) && j < |x| < j + |sep|
    ensures x[|x| - 1] in sep && y[0] in sep
  {
    var s := x + y;
    assert s[j..j + |sep|] == sep;
    assert sep[|x| - 1 - j] == s[|x| - 1] == x[|x| - 1];
    assert sep[|x| - j] == s[|x|] == y[0];
  }

  /** A needle without the character q that occurs in a + [q] + b occurs
      in a or in b. */
  lemma ContainsAround(a: string, q: char, b: string, sep: string)
    requires |sep| > 0 && q !in sep && Contains(a + [q] + b, sep)
    ensures Contains(a, sep) || Contains(b, sep)
  {
    var s := a + [q] + b;
    var j := Find(s, sep).value;
    assert s[j..j + |sep|] == sep;
    if j + |sep| <= |a| {
      assert s == a + ([q] + b);
      AtPrefix(a, [q] + b, sep, j);
      ContainsAt(a, sep, j);
    } else if j <= |a| {
      AtCovers(s, sep, j, |a|);
      assert false;
    } else {
      assert s[j..j + |sep|] == b[j - |a| - 1..j - |a| - 1 + |sep|];
      ContainsAt(b, sep, j - |a| - 1);
    }
  }

  /** The first occurrence is the one with none before it. */
  lemma FindIs(s: string, sep: string, i: nat)
    requires At(s, sep, i) && forall j: nat :: j < i ==> !At(s, sep, j)
    ensures Find(s, sep) == Some(i)
  {
  }

  /** In x + sep + y, when the last character of x is not part of the
      separator, no occurrence starts before the first one of x (or before
      the separator when x has none). */
  lemma NoEarlier(x: string, sep: string, y: string, i: nat)
    requires |sep| > 0 && |x| > 0 && x[|x| - 1] !in sep && i <= |x|
    requires forall j: nat :: j < i ==> !At(x, sep, j)
    ensures forall j: nat :: j < i ==> !At(x + sep + y, sep, j)
  {
    var s := x + sep + y;
    assert s == x + (sep + y);
    forall j: nat | j < i
      ensures !At(s, sep, j)
    {
      if At(s, sep, j) {
        if j + |sep| <= |x| {
          AtPrefix(x, sep + y, sep, j);
        } else {
          AtStraddle(x, sep + y, sep, j);
        }
      }
    }
  }

  /** Splitting x + sep + y, where the last character of x is not part of
      the separator, splits x and y apart. */
  lemma {:induction false} SplitConcat(x: string, sep: string, y: string)
    requires |sep| > 0 && |x| > 0 && x[|x| - 1] !in sep
    ensures Split(x + sep + y, sep) == Split(x, sep) + Split(y, sep)
    decreases |x|
  {
    var f := Find(x, sep);
    if f.Some? {
      var i := f.value;
      var x' := x[i + |sep|..];
      SplitConcatStep(x, sep, y, i);
      SplitConcat(x', sep, y);
    } else {
      SplitConcatLast(x, sep, y);
    }
  }

  /** The first piece of x is the first piece of x + sep + y. */
  lemma SplitConcatStep(x: string, sep: string, y: string, i: nat)
    requires |sep| > 0 && |x| > 0 && x[|x| - 1] !in sep && Find(x, sep) == Some(i)
    ensures var x' := x[i + |sep|..];
      |x'| > 0 && x'[|x'| - 1] !in sep &&
      Split(x + sep + y, sep) == [x[..i]] + Split(x' + sep + y, sep) &&
      Split(x, sep) == [x[..i]] + Split(x', sep)
  {
    var s := x + sep + y;
    var x' := x[i + |sep|..];
    RestAfter(x, sep, i);
    assert Split(x, sep) == [x[..i]] + Split(x', sep) by {
      SplitUnfold(x, sep, i);
    }
    assert Split(s, sep) == [x[..i]] + Split(x' + sep + y, sep) by {
      FindConcat(x, sep, y, i);
      SplitUnfold(s, sep, i);
      assert s[..i] == x[..i];
      assert s[i + |sep|..] == x' + sep + y;
    }
  }

  /** The first occurrence in x is the first one in x + sep + y. */
  lemma FindConcat(x: string, sep: string, y: string, i: nat)
    requires |sep| > 0 && |x| > 0 && x[|x| - 1] !in sep && Find(x, sep) == Some(i)
    ensures Find(x + sep + y, sep) == Some(i)
  {
    var s := x + sep + y;
    assert s[i..i + |sep|] == x[i..i + |sep|];
    NoEarlier(x, sep, y, i);
    FindIs(s, sep, i);
  }

  /** An occurrence in x cannot end x when the last character of x is not
      part of the separator; what follows keeps that last character. */
  lemma RestAfter(x: string, sep: string, i: nat)
    requires |sep| > 0 && |x| > 0 && x[|x| - 1] !in sep && At(x, sep, i)
    ensures var x' := x[i + |sep|..]; |x'| > 0 && x'[|x'| - 1] !in sep
  {
    if i + |sep| == |x| {
      AtCovers(x, sep, i, |x| - 1);
      assert false;
    }
  }

  /** When x holds no separator, x is the first piece of x + sep + y. */
  lemma SplitConcatLast(x: string, sep: string, y: string)
    requires |sep| > 0 && |x| > 0 && x[|x| - 1] !in sep && Find(x, sep).None?
    ensures Split(x + sep + y, sep) == Split(x, sep) + Split(y, sep)
  {
    var s := x + sep + y;
    assert s[|x|..|x| + |sep|] == sep;
    NoEarlier(x, sep, y, |x|);
    FindIs(s, sep, |x|);
    SplitUnfold(s, sep, |x|);
    assert s[..|x|] == x;
    assert s[|x| + |sep|..] == y;
    SplitAbsent(x, sep);
  }

  /** Characters outside the separator added at the end of x only lengthen
      the last piece of the split. */
  lemma {:induction false} SplitTail(x: string, w: string, sep: string)
    requires |sep| > 0 && forall k :: 0 <= k < |w| ==> w[k] !in sep
    ensures var r := Split(x, sep);
      Split(x + w, sep) == r[..|r| - 1] + [r[|r| - 1] + w]
    decreases |x|
  {
    var f := Find(x, sep);
    if f.Some? {
      var i := f.value;
      SplitTailStep(x, w, sep, i);
      SplitTail(x[i + |sep|..], w, sep);
      var r' := Split(x[i + |sep|..], sep);
      assert ([x[..i]] + r')[..|r'|] == [x[..i]] + r'[..|r'| - 1];
    } else {
      NoEarlierTail(x, w, sep, |x|);
      SplitAbsent(x, sep);
      SplitAbsent(x + w, sep);
    }
  }

  /** In x + w, where no character of w is part of the separator, no
      occurrence starts before the first one of x. */
  lemma NoEarlierTail(x: string, w: string, sep: string, i: nat)
    requires |sep| > 0 && (forall k :: 0 <= k < |w| ==> w[k] !in sep) && i <= |x|
    requires forall j: nat :: j < i ==> !At(x, sep, j)
    ensures forall j: nat :: j < i ==> !At(x + w, sep, j)
    ensures i == |x| ==> !Contains(x + w, sep)
  {
    var s := x + w;
    forall j: nat | j < |s| && At(s, sep, j)
      ensures j + |sep| <= |x| && At(x, sep, j)
    {
      if j + |sep| > |x| {
        AtCovers(s, sep, j, j + |sep| - 1);
        assert false;
      }
      AtPrefix(x, w, sep, j);
    }
  }

  /** The first piece of x is the first piece of x + w. */
  lemma SplitTailStep(x: string, w: string, sep: string, i: nat)
    requires |sep| > 0 && (forall k :: 0 <= k < |w| ==> w[k] !in sep) && Find(x, sep) == Some(i)
    ensures Split(x + w, sep) == [x[..i]] + Split(x[i + |sep|..] + w, sep)
    ensures Split(x, sep) == [x[..i]] + Split(x[i + |sep|..], sep)
  {
    var s := x + w;
    assert s[i..i + |sep|] == x[i..i + |sep|];
    NoEarlierTail(x, w, sep, i);
    FindIs(s, sep, i);
    SplitUnfold(s, sep, i);
    SplitUnfold(x, sep, i);
    assert s[..i] == x[..i];
    assert s[i + |sep|..] == x[i + |sep|..] + w;
  }

  /** Lines free of the one-character separator c split back out of their
      join. */
  lemma {:induction false} SplitJoinChar(lines: seq<string>, c: char)
    requires |lines| >= 1 && forall k :: 0 <= k < |lines| ==> c !in lines[k]
    ensures Split(Join(lines, [c]), [c]) == lines
    decreases |lines|
  {
    assert !Contains(lines[0], [c]) by { ContainsChar(lines[0], c); }
    if |lines| == 1 {
      SplitAbsent(lines[0], [c]);
    } else {
      var rest := lines[1..];
      assert Split(Join(rest, [c]), [c]) == rest by { SplitJoinChar(rest, c); }
      assert Join(lines, [c]) == lines[0] + [c] + Join(rest, [c]);
      assert Split(Join(lines, [c]), [c]) == [lines[0]] + Split(Join(rest, [c]), [c]) by {
        SplitFirst(lines[0], [c], Join(rest, [c]));
      }
      assert lines == [lines[0]] + rest;
    }
  }

  /** A text is its leading run of f, what StripBy keeps and its trailing
      run of f, and what is kept, when not empty, has neither end in f. */
  lemma StripByParts(s: string, f: char -> bool) returns (p: string, q: string)
    ensures All(p, f) && All(q, f) && s == p + StripBy(s, f) + q
    ensures |StripBy(s, f)| > 0 ==> !f(StripBy(s, f)[0]) && !f(StripBy(s, f)[|StripBy(s, f)| - 1])
  {
    var k := Lead(s, f);
    var t := s[k..];
    var m := Trail(t, f);
    var c := t[..|t| - m];
    assert c == StripBy(s, f);
    p, q := s[..k], t[|t| - m..];
    assert All(p, f) by {
      forall i | 0 <= i < |p| ensures f(p[i]) { assert p[i] == s[i]; }
    }
    assert All(q, f) by {
      forall i | 0 <= i < |q| ensures f(q[i]) { assert q[i] == t[|t| - m + i]; }
    }
    assert s == p + c + q by {
      assert s == p + t;
      assert t == c + q;
    }
    if |c| > 0 {
      assert c[0] == s[k];
      assert c[|c| - 1] == t[|t| - 1 - m];
    }
  }

  /** A text is its leading whitespace, its strip and its trailing
      whitespace, and a non-empty strip has no whitespace at either end. */
  lemma StripParts(s: string) returns (p: string, q: string)
    ensures All(p, IsSpace) && All(q, IsSpace) && s == p + Strip(s) + q
    ensures |Strip(s)| > 0 ==> !IsSpace(Strip(s)[0]) && !IsSpace(Strip(s)[|Strip(s)| - 1])
  {
    p, q := StripByParts(s, IsSpace);
  }

  /** Whitespace added at the end does not change the strip. */
  lemma StripTrailing(s: string, w: string)
    requires All(w, IsSpace)
    ensures Strip(s + w) == Strip(s)
  {
    var p, q := StripParts(s);
    var c := Strip(s);
    assert s + w == p + c + (q + w);
    StripPadded(p, c, q + w, IsSpace);
  }

  /** Only whitespace strips to nothing. */
  lemma StripEmpty(s: string)
    ensures Strip(s) == "" <==> All(s, IsSpace)
  {
    var p, q := StripParts(s);
    if All(s, IsSpace) {
      StripPadded(s, "", "", IsSpace);
      assert s + "" + "" == s;
    }
    if Strip(s) == "" {
      assert s == p + q;
    }
  }
}
