/** Python `str` operations used by the scraper, on Dafny strings (`seq<char>`). */
module Text {

  /** Python's `str.isspace()`: the characters `str.strip()` with no argument removes. */
  predicate IsPySpace(c: char)
  {
    || ('\t' <= c <= '\r') || ('\U{1C}' <= c <= ' ') || c == '\U{85}' || c == '\U{A0}' || c == '\U{1680}'
    || ('\U{2000}' <= c <= '\U{200A}') || c == '\U{2028}' || c == '\U{2029}' || c == '\U{202F}'
    || c == '\U{205F}' || c == '\U{3000}'
  }

  const PyWhitespace: set<char> := set c: char | '\t' <= c <= '\U{3000}' && IsPySpace(c)

  predicate IsDigit(c: char) { '0' <= c <= '9' }

  function LowerChar(c: char): char
  {
    if 'A' <= c <= 'Z' then (c as int + 32) as char else c
  }

  function UpperChar(c: char): char
  {
    if 'a' <= c <= 'z' then (c as int - 32) as char else c
  }

  /** `s.lower()`, for ASCII letters. */
  function Lower(s: string): (r: string)
    ensures |r| == |s|
    ensures forall i :: 0 <= i < |s| ==> r[i] == LowerChar(s[i])
  {
    seq(|s|, i requires 0 <= i < |s| => LowerChar(s[i]))
  }

  /** `s.upper()`, for ASCII letters. */
  function Upper(s: string): (r: string)
    ensures |r| == |s|
    ensures forall i :: 0 <= i < |s| ==> r[i] == UpperChar(s[i])
  {
    seq(|s|, i requires 0 <= i < |s| => UpperChar(s[i]))
  }

  predicate StartsWith(s: string, prefix: string)
  {
    prefix <= s
  }

  /** `s.lstrip(cs)`: the longest suffix of `s` that does not start with a character of `cs`. */
  function StripLeft(s: string, cs: set<char>): (r: string)
    ensures |r| <= |s| && r == s[|s| - |r|..]
    ensures r == [] || r[0] !in cs
    ensures forall k :: 0 <= k < |s| - |r| ==> s[k] in cs
    decreases |s|
  {
    if |s| > 0 && s[0] in cs then StripLeft(s[1..], cs) else s
  }

  /** `s.rstrip(cs)`: the longest prefix of `s` that does not end with a character of `cs`. */
  function StripRight(s: string, cs: set<char>): (r: string)
    ensures |r| <= |s| && r == s[..|r|]
    ensures r == [] || r[|r| - 1] !in cs
    ensures forall k :: |r| <= k < |s| ==> s[k] in cs
    decreases |s|
  {
    if |s| > 0 && s[|s| - 1] in cs then StripRight(s[..|s| - 1], cs) else s
  }

  /** `s.strip(cs)`: characters of `cs` removed at both ends. */
  function Strip(s: string, cs: set<char>): string
  {
    StripRight(StripLeft(s, cs), cs)
  }

  /** The text `c + ts[0] + c + ts[1] + ...`: every token preceded by the separator. */
  function SepPrefixed(ts: seq<string>, c: char): string
  {
    if ts == [] then "" else [c] + ts[0] + SepPrefixed(ts[1..], c)
  }

  /** `c.join(ts)` for a non-empty list of tokens. */
  function Join(ts: seq<string>, c: char): string
    requires |ts| >= 1
  {
    ts[0] + SepPrefixed(ts[1..], c)
  }

  /** `s.split(c)` with an explicit one-character separator: empty tokens are kept. */
  function Split(s: string, c: char): (r: seq<string>)
    ensures |r| >= 1
    ensures forall k :: 0 <= k < |r| ==> c !in r[k]
    ensures |r| >= 2 <==> c in s
    decreases |s|
  {
    if |s| == 0 then [""]
    else
      var rest := Split(s[1..], c);
      if s[0] == c then [""] + rest
      else [[s[0]] + rest[0]] + rest[1..]
  }

  lemma SepPrefixedSnoc(ts: seq<string>, t: string, c: char)
    ensures SepPrefixed(ts + [t], c) == SepPrefixed(ts, c) + [c] + t
  {
    if ts != [] {
      assert (ts + [t])[1..] == ts[1..] + [t];
      SepPrefixedSnoc(ts[1..], t, c);
    }
  }

  /** Joining the tokens of a split gives back the text. */
  lemma {:induction false} JoinSplit(s: string, c: char)
    ensures Join(Split(s, c), c) == s
    decreases |s|
  {
    if |s| > 0 {
      JoinSplit(s[1..], c);
      var rest := Split(s[1..], c);
      if s[0] == c {
        assert Split(s, c)[1..] == rest;
      } else {
        assert Split(s, c)[1..] == rest[1..];
      }
    }
  }

  /** One step of `Split`: a leading character either closes the first token or joins it. */
  lemma SplitCons(x: char, s: string, c: char)
    ensures Split([x] + s, c) == if x == c then [""] + Split(s, c) else [[x] + Split(s, c)[0]] + Split(s, c)[1..]
  {
    assert ([x] + s)[1..] == s;
  }

  /** A separator-free text splits into itself alone. */
  lemma {:induction false} SplitNoSeparator(t: string, c: char)
    requires c !in t
    ensures Split(t, c) == [t]
    decreases |t|
  {
    if |t| > 0 {
      SplitNoSeparator(t[1..], c);
      SplitCons(t[0], t[1..], c);
      assert t == [t[0]] + t[1..];
    }
  }

  /** A separator-free token followed by the separator splits off as the first token. */
  lemma {:induction false} SplitPrepend(t: string, s: string, c: char)
    requires c !in t
    ensures Split(t + [c] + s, c) == [t] + Split(s, c)
    decreases |t|
  {
    if |t| == 0 {
      assert t + [c] + s == [c] + s;
      SplitCons(c, s, c);
    } else {
      var u := t[1..] + [c] + s;
      assert t + [c] + s == [t[0]] + u;
      SplitPrepend(t[1..], s, c);
      SplitCons(t[0], u, c);
      assert [t[0]] + t[1..] == t;
    }
  }

  /** Splitting a join of separator-free tokens gives back the tokens. */
  lemma {:induction false} SplitJoin(ts: seq<string>, c: char)
    requires |ts| >= 1
    requires forall k :: 0 <= k < |ts| ==> c !in ts[k]
    ensures Split(Join(ts, c), c) == ts
    decreases |ts|
  {
    if |ts| == 1 {
      assert Join(ts, c) == ts[0];
      SplitNoSeparator(ts[0], c);
    } else {
      var rest := ts[1..];
      assert c !in rest[0];
      assert rest[1..] == ts[2..];
      assert Join(ts, c) == ts[0] + [c] + Join(rest, c);
      SplitJoin(rest, c);
      SplitPrepend(ts[0], Join(rest, c), c);
      assert ts == [ts[0]] + rest;
    }
  }

  function DigitChar(d: nat): char
    requires d < 10
  {
    ('0' as int + d) as char
  }

  function DigitValue(c: char): nat
  {
    if IsDigit(c) then c as int - '0' as int else 0
  }

  /** Decimal digits of `n`, as Python's `str(n)` writes them. */
  function NatToString(n: nat): (r: string)
    ensures |r| >= 1
    ensures forall k :: 0 <= k < |r| ==> IsDigit(r[k])
    decreases n
  {
    if n < 10 then [DigitChar(n)] else NatToString(n / 10) + [DigitChar(n % 10)]
  }

  /** `str(i)` / `f"{i}"` for an integer: a minus sign before the digits of a negative one. */
  function IntToString(i: int): string
  {
    if i < 0 then "-" + NatToString(-i) else NatToString(i)
  }

  function ParseNat(s: string): nat
  {
    if s == [] then 0 else 10 * ParseNat(s[..|s| - 1]) + DigitValue(s[|s| - 1])
  }

  /** `int(s)` on an optionally signed decimal numeral. */
  function ParseInt(s: string): int
  {
    if |s| > 0 && s[0] == '-' then 0 - ParseNat(s[1..]) as int else ParseNat(s)
  }

  lemma {:induction false} ParseNatToString(n: nat)
    ensures ParseNat(NatToString(n)) == n
    decreases n
  {
    if n >= 10 {
      ParseNatToString(n / 10);
      var s := NatToString(n);
      assert s[..|s| - 1] == NatToString(n / 10);
    }
  }

  /** `int(str(i)) == i`: the decimal rendering of an integer can be read back. */
  lemma ParseIntToString(i: int)
    ensures ParseInt(IntToString(i)) == i
  {
    if i < 0 {
      ParseNatToString(-i);
      assert IntToString(i)[1..] == NatToString(-i);
    } else {
      ParseNatToString(i);
    }
  }

  /** A rendered integer contains no character other than digits and a leading minus sign. */
  lemma IntToStringFree(i: int, c: char)
    requires !IsDigit(c) && c != '-'
    ensures c !in IntToString(i)
  {
    var s := IntToString(i);
    if i < 0 {
      assert forall k :: 1 <= k < |s| ==> s[k] == NatToString(-i)[k - 1];
    }
  }

  lemma {:induction false} StripLeftPadded(w: string, y: string, cs: set<char>)
    requires forall i :: 0 <= i < |w| ==> w[i] in cs
    requires y == [] || y[0] !in cs
    ensures StripLeft(w + y, cs) == y
    decreases |w|
  {
    if w != [] {
      assert (w + y)[1..] == w[1..] + y;
      StripLeftPadded(w[1..], y, cs);
    } else {
      assert w + y == y;
    }
  }

  lemma {:induction false} StripRightPadded(y: string, w: string, cs: set<char>)
    requires forall i :: 0 <= i < |w| ==> w[i] in cs
    requires y == [] || y[|y| - 1] !in cs
    ensures StripRight(y + w, cs) == y
    decreases |w|
  {
    if w != [] {
      assert (y + w)[..|y + w| - 1] == y + w[..|w| - 1];
      StripRightPadded(y, w[..|w| - 1], cs);
    } else {
      assert y + w == y;
    }
  }

  /** Stripping removes exactly the padding around a text that does not start or end with `cs`. */
  lemma StripPadded(w1: string, x: string, w2: string, cs: set<char>)
    requires forall i :: 0 <= i < |w1| ==> w1[i] in cs
    requires forall i :: 0 <= i < |w2| ==> w2[i] in cs
    requires x == [] || (x[0] !in cs && x[|x| - 1] !in cs)
    ensures Strip(w1 + x + w2, cs) == x
  {
    if x == [] {
      var w := w1 + w2;
      assert w1 + x + w2 == w + [];
      StripLeftPadded(w, [], cs);
    } else {
      assert w1 + x + w2 == w1 + (x + w2);
      StripLeftPadded(w1, x + w2, cs);
      StripRightPadded(x, w2, cs);
    }
  }

  /** `s.endswith(suffix)`. */
  predicate EndsWith(s: string, suffix: string)
  {
    |suffix| <= |s| && s[|s| - |suffix|..] == suffix
  }

  lemma EndsWithConcat(p: string, t: string)
    ensures EndsWith(p + t, t)
  {
    assert (p + t)[|p|..] == t;
  }

  /** Stripping a text that is padded on the left only removes the padding. */
  lemma StripLeading(w: string, x: string, cs: set<char>)
    requires forall i :: 0 <= i < |w| ==> w[i] in cs
    requires x != [] && x[0] !in cs && x[|x| - 1] !in cs
    ensures Strip(w + x, cs) == x
  {
    StripLeftPadded(w, x, cs);
  }

  /** Stripping a text that is padded on the right only removes the padding. */
  lemma StripTrailing(x: string, w: string, cs: set<char>)
    requires forall i :: 0 <= i < |w| ==> w[i] in cs
    requires x != [] && x[0] !in cs && x[|x| - 1] !in cs
    ensures Strip(x + w, cs) == x
  {
    assert (x + w)[0] == x[0];
    StripRightPadded(x, w, cs);
  }

  /** The text of `s` before its first `c`. */
  function Before(s: string, c: char): (r: string)
    ensures c !in r && r <= s
  {
    if s == [] || s[0] == c then [] else [s[0]] + Before(s[1..], c)
  }

  /** The text of `s` after its last `c`. */
  function AfterLast(s: string, c: char): (r: string)
    ensures c !in r
  {
    if c !in s then s else AfterLast(s[1..], c)
  }

  lemma {:induction false} BeforeSep(y: string, r: string, c: char)
    requires c !in y && r != [] && r[0] == c
    ensures Before(y + r, c) == y
    decreases |y|
  {
    if y != [] {
      assert (y + r)[1..] == y[1..] + r;
      BeforeSep(y[1..], r, c);
    }
  }

  lemma {:induction false} AfterLastSep(p: string, t: string, c: char)
    requires c !in t
    ensures AfterLast(p + [c] + t, c) == t
    decreases |p|
  {
    var s := p + [c] + t;
    assert s[|p|] == c;
    if p == [] {
      assert s[1..] == t;
    } else {
      assert s[1..] == p[1..] + [c] + t;
      AfterLastSep(p[1..], t, c);
    }
  }

  /** The first token of a split is the text before the first separator. */
  lemma {:induction false} SplitFirst(s: string, c: char)
    ensures Split(s, c)[0] == Before(s, c)
    decreases |s|
  {
    if |s| > 0 && s[0] != c {
      SplitFirst(s[1..], c);
    }
  }

  /** When `c` occurs, the text before its first occurrence ends right at it. */
  lemma {:induction false} BeforeEndsAtSeparator(s: string, c: char)
    requires c in s
    ensures |Before(s, c)| < |s| && s[|Before(s, c)|] == c
    decreases |s|
  {
    if s[0] != c {
      assert s == [s[0]] + s[1..];
      BeforeEndsAtSeparator(s[1..], c);
    }
  }

  /** The second token of a split is the text between the first separator and the next. */
  lemma {:induction false} SplitSecond(s: string, c: char)
    requires c in s
    ensures |Before(s, c)| < |s|
    ensures Split(s, c)[1] == Before(s[|Before(s, c)| + 1..], c)
    decreases |s|
  {
    BeforeEndsAtSeparator(s, c);
    var t := s[1..];
    if s[0] == c {
      SplitFirst(t, c);
    } else {
      assert s == [s[0]] + t;
      assert c in t;
      SplitSecond(t, c);
      var b := Before(t, c);
      assert Before(s, c) == [s[0]] + b;
      assert t[|b| + 1..] == s[|b| + 2..];
    }
  }

  /** The first token of a split is the text before the first separator, the second the text up to the next. */
  lemma SplitHead(s: string, c: char)
    ensures Split(s, c)[0] == Before(s, c)
    ensures c in s ==> |Before(s, c)| < |s| && s[|Before(s, c)|] == c
    ensures c in s ==> Split(s, c)[1] == Before(s[|Before(s, c)| + 1..], c)
  {
    SplitFirst(s, c);
    if c in s {
      BeforeEndsAtSeparator(s, c);
      SplitSecond(s, c);
    }
  }
}
