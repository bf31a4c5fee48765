/**
 * String helpers that mirror the Python built-ins the log monitor relies on:
 * `str.strip`/`str.rstrip`, `str.split(sep)`, `str.startswith`/`str.endswith`,
 * `file.readlines()` and the decimal rendering of an integer in an f-string.
 */
module Text {

  /** Python's `str.isspace`, restricted to ASCII: tab, line feed, vertical tab,
      form feed, carriage return, the four separators 0x1C-0x1F and space. */
  predicate IsSpace(c: char) {
    c == ' ' || c == '\t' || c == '\n' || c == '\U{000B}' || c == '\U{000C}' || c == '\r'
    || c == '\U{001C}' || c == '\U{001D}' || c == '\U{001E}' || c == '\U{001F}'
  }

  predicate AllSpace(s: string) {
    forall i :: 0 <= i < |s| ==> IsSpace(s[i])
  }

  /** `s.rstrip()`: the longest prefix of `s` that does not end in whitespace
      (see `RStripShape`). */
  function RStrip(s: string): (r: string)
    ensures |r| <= |s|
    decreases |s|
  {
    if s != [] && IsSpace(s[|s| - 1]) then RStrip(s[..|s| - 1]) else s
  }

  /** What `rstrip` removes is trailing whitespace, and no more. */
  lemma {:induction false} RStripShape(s: string)
    ensures var r := RStrip(s);
      r == s[..|r|] && AllSpace(s[|r|..]) && (r == [] || !IsSpace(r[|r| - 1]))
    decreases |s|
  {
    if s != [] && IsSpace(s[|s| - 1]) {
      var r := RStrip(s[..|s| - 1]);
      RStripShape(s[..|s| - 1]);
      assert s[|r|..] == s[..|s| - 1][|r|..] + [s[|s| - 1]];
    }
  }

  /** `s.lstrip()`: the longest suffix of `s` that does not start with whitespace
      (see `LStripShape`). */
  function LStrip(s: string): (r: string)
    ensures |r| <= |s|
    decreases |s|
  {
    if s != [] && IsSpace(s[0]) then LStrip(s[1..]) else s
  }

  /** What `lstrip` removes is leading whitespace, and no more. */
  lemma {:induction false} LStripShape(s: string)
    ensures var r := LStrip(s);
      r == s[|s| - |r|..] && AllSpace(s[..|s| - |r|]) && (r == [] || !IsSpace(r[0]))
    decreases |s|
  {
    if s != [] && IsSpace(s[0]) {
      var r := LStrip(s[1..]);
      LStripShape(s[1..]);
      assert s[..|s| - |r|] == [s[0]] + s[1..][..|s[1..]| - |r|];
    }
  }

  /** `s.strip()`. Its truth value in Python (`if s.strip():`) is `Strip(s) != ""`. */
  function Strip(s: string): string {
    LStrip(RStrip(s))
  }

  /** `strip()` leaves nothing exactly when the text is blank, never leaves
      whitespace at either end, and leaves text without such whitespace alone. */
  lemma StripShape(s: string)
    ensures var r := Strip(s);
      (r == [] <==> AllSpace(s))
      && (r == [] || (!IsSpace(r[0]) && !IsSpace(r[|r| - 1])))
      && ((s == [] || (!IsSpace(s[0]) && !IsSpace(s[|s| - 1]))) ==> r == s)
  {
    StripParts(s, RStrip(s), Strip(s));
  }

  lemma StripParts(s: string, t: string, r: string)
    requires t == RStrip(s) && r == LStrip(t)
    ensures r == [] <==> AllSpace(s)
    ensures r == [] || (!IsSpace(r[0]) && !IsSpace(r[|r| - 1]))
    ensures (s == [] || (!IsSpace(s[0]) && !IsSpace(s[|s| - 1]))) ==> r == s
  {
    RStripShape(s);
    LStripShape(t);
    if r == [] {
      StripPartsEmpty(s, t);
    } else {
      var j := |t| - |r|;
      assert s[j] == t[j] == r[0];
      assert r[|r| - 1] == t[|t| - 1];
    }
  }

  lemma StripPartsEmpty(s: string, t: string)
    requires t == RStrip(s) && LStrip(t) == []
    ensures AllSpace(s)
  {
    RStripShape(s);
    LStripShape(t);
    assert AllSpace(t) by { assert t[..|t|] == t; }
    assert t == [];
    assert s[|t|..] == s;
  }

  /** If the trailing part `w` of `x + w` is all whitespace and `x` does not end
      in whitespace, `rstrip` gives back exactly `x`. */
  lemma {:induction false} RStripAppendSpace(x: string, w: string)
    requires AllSpace(w)
    requires x == [] || !IsSpace(x[|x| - 1])
    ensures RStrip(x + w) == x
    decreases |w|
  {
    if w == [] {
      assert x + w == x;
    } else {
      var s := x + w;
      assert s[..|s| - 1] == x + w[..|w| - 1];
      RStripAppendSpace(x, w[..|w| - 1]);
    }
  }

  predicate StartsWith<T(==)>(s: seq<T>, prefix: seq<T>) {
    |prefix| <= |s| && s[..|prefix|] == prefix
  }

  predicate EndsWith(s: string, suffix: string) {
    |suffix| <= |s| && s[|s| - |suffix|..] == suffix
  }

  /** Python's slice `s[k:]` for any integer `k`: a negative `k` counts from the
      end, and a start beyond either end is clamped, so the result is always a suffix. */
  function PySliceFrom<T>(s: seq<T>, k: int): (r: seq<T>)
    ensures |r| <= |s|
    ensures k >= 0 ==> |r| == if k >= |s| then 0 else |s| - k
    ensures k < 0 ==> |r| == if -k >= |s| then |s| else -k
  {
    if k >= 0 then (if k >= |s| then [] else s[k..])
    else (if -k >= |s| then s else s[|s| + k..])
  }

  lemma PySliceFromSuffix<T>(s: seq<T>, k: int)
    ensures var r := PySliceFrom(s, k); r == s[|s| - |r|..]
  {
  }

  /** The index of the first occurrence of `c` in `s`. */
  function IndexOf(s: string, c: char): (i: nat)
    requires c in s
    ensures i < |s| && s[i] == c && c !in s[..i]
  {
    if s[0] == c then 0
    else
      var i := 1 + IndexOf(s[1..], c);
      assert s[..i] == [s[0]] + s[1..][..i - 1];
      i
  }

  /** `s.split(sep)` for a one-character separator: never empty, no part holds `sep`. */
  function SplitOn(s: string, sep: char): (parts: seq<string>)
    ensures |parts| >= 1
    ensures (|parts| == 1) <==> sep !in s
    ensures forall i :: 0 <= i < |parts| ==> sep !in parts[i]
    decreases |s|
  {
    if sep !in s then [s]
    else
      var i := IndexOf(s, sep);
      [s[..i]] + SplitOn(s[i + 1..], sep)
  }

  lemma SplitOnFree(s: string, sep: char)
    requires sep !in s
    ensures SplitOn(s, sep) == [s]
  {
  }

  /** `sep.join(parts)`. */
  function JoinWith(parts: seq<string>, sep: char): string
  {
    if parts == [] then []
    else if |parts| == 1 then parts[0]
    else parts[0] + [sep] + JoinWith(parts[1..], sep)
  }

  /** `split` undoes `join`: the parts come back. */
  lemma {:induction false} JoinWithSplitOn(s: string, sep: char)
    ensures JoinWith(SplitOn(s, sep), sep) == s
    decreases |s|
  {
    if sep in s {
      var i := IndexOf(s, sep);
      var rest := SplitOn(s[i + 1..], sep);
      JoinWithSplitOn(s[i + 1..], sep);
      JoinWithCons(s[..i], rest, sep);
      SplitAround(s, i);
    }
  }

  lemma AppendAssoc<T>(a: seq<T>, b: seq<T>, c: seq<T>)
    ensures (a + b) + c == a + (b + c)
  {
  }

  /** A sequence is what comes before position `i`, the element there and what follows. */
  lemma SplitAround<T>(s: seq<T>, i: nat)
    requires i < |s|
    ensures s == s[..i] + [s[i]] + s[i + 1..]
  {
  }

  lemma JoinWithCons(x: string, parts: seq<string>, sep: char)
    requires |parts| >= 1
    ensures JoinWith([x] + parts, sep) == x + [sep] + JoinWith(parts, sep)
  {
    assert ([x] + parts)[1..] == parts;
  }

  /** The first occurrence of `c` in `a + b` is the one in `a`, when `a` has one. */
  lemma {:induction false} IndexOfAppend(a: string, b: string, c: char)
    requires c in a
    ensures IndexOf(a + b, c) == IndexOf(a, c)
  {
    if a[0] != c {
      assert (a + b)[1..] == a[1..] + b;
      IndexOfAppend(a[1..], b, c);
    }
  }

  /** A separator placed right after a part free of it is the first one. */
  lemma {:induction false} IndexOfAfter(a: string, b: string, c: char)
    requires c !in a
    ensures IndexOf(a + [c] + b, c) == |a|
  {
    if a != [] {
      assert (a + [c] + b)[1..] == a[1..] + [c] + b;
      IndexOfAfter(a[1..], b, c);
    }
  }

  /** Splitting at a separator placed between `a` and `b` splits each side on its own;
      this is how the separator in a path such as `dir + "/" + file` can be found again. */
  lemma {:induction false} SplitOnConcat(a: string, b: string, sep: char)
    ensures SplitOn(a + [sep] + b, sep) == SplitOn(a, sep) + SplitOn(b, sep)
    decreases |a|
  {
    if sep !in a {
      SplitOnAfterPart(a, b, sep);
    } else {
      var i := IndexOf(a, sep);
      SplitOnConcatStep(a, b, sep);
      SplitOnConcat(a[i + 1..], b, sep);
      assert SplitOn(a, sep) == [a[..i]] + SplitOn(a[i + 1..], sep);
      AppendAssoc([a[..i]], SplitOn(a[i + 1..], sep), SplitOn(b, sep));
    }
  }

  /** The base case of `SplitOnConcat`: `a` holds no separator. */
  lemma SplitOnAfterPart(a: string, b: string, sep: char)
    requires sep !in a
    ensures SplitOn(a + [sep] + b, sep) == [a] + SplitOn(b, sep)
  {
    var s := a + [sep] + b;
    IndexOfAfter(a, b, sep);
    assert s[..|a|] == a;
    assert s[|a| + 1..] == b;
  }

  /** The inductive step of `SplitOnConcat`: the first part comes from `a`. */
  lemma SplitOnConcatStep(a: string, b: string, sep: char)
    requires sep in a
    ensures var i := IndexOf(a, sep);
      SplitOn(a + [sep] + b, sep) == [a[..i]] + SplitOn(a[i + 1..] + [sep] + b, sep)
  {
    var s := a + [sep] + b;
    var i := IndexOf(a, sep);
    IndexOfAppend(a, [sep] + b, sep);
    assert s == a + ([sep] + b);
    assert s[..i] == a[..i];
    assert s[i + 1..] == a[i + 1..] + [sep] + b;
  }

  /** `join` undoes `split` when no part holds the separator. */
  lemma {:induction false} SplitOnJoinWith(parts: seq<string>, sep: char)
    requires |parts| >= 1
    requires forall i :: 0 <= i < |parts| ==> sep !in parts[i]
    ensures SplitOn(JoinWith(parts, sep), sep) == parts
    decreases |parts|
  {
    SplitOnFree(parts[0], sep);
    if |parts| > 1 {
      var rest := parts[1..];
      SplitOnJoinWith(rest, sep);
      assert JoinWith(parts, sep) == parts[0] + [sep] + JoinWith(rest, sep);
      SplitOnConcat(parts[0], JoinWith(rest, sep), sep);
      assert [parts[0]] + rest == parts;
    }
  }

  /** The concatenation of a sequence of strings. */
  function Concat(ss: seq<string>): string {
    if ss == [] then [] else ss[0] + Concat(ss[1..])
  }

  /** The length of the first line of `s`, counting its `'\n'` terminator if it has
      one (see `LineLengthShape`). */
  function LineLength(s: string): (k: nat)
    requires s != []
    ensures 1 <= k <= |s|
    decreases |s|
  {
    if s[0] == '\n' || |s| == 1 then 1 else 1 + LineLength(s[1..])
  }

  /** The first line ends at the first `'\n'`, or at the end of the text. */
  lemma {:induction false} LineLengthShape(s: string)
    requires s != []
    ensures var k := LineLength(s);
      '\n' !in s[..k - 1] && (k < |s| ==> s[k - 1] == '\n')
    decreases |s|
  {
    if !(s[0] == '\n' || |s| == 1) {
      var k := LineLength(s);
      LineLengthShape(s[1..]);
      assert s[..k - 1] == [s[0]] + s[1..][..k - 2];
    }
  }

  /** `file.readlines()` over the file's text (see `SplitLinesConcat` and `SplitLinesShape`). */
  function SplitLines(s: string): (lines: seq<string>)
    decreases |s|
  {
    if s == [] then []
    else
      var k := LineLength(s);
      [s[..k]] + SplitLines(s[k..])
  }

  /** The lines `readlines` gives concatenate back to the text. */
  lemma {:induction false} SplitLinesConcat(s: string)
    ensures Concat(SplitLines(s)) == s
    decreases |s|
  {
    if s != [] {
      var k := LineLength(s);
      SplitLinesConcat(s[k..]);
      assert ([s[..k]] + SplitLines(s[k..]))[1..] == SplitLines(s[k..]);
      assert s == s[..k] + s[k..];
    }
  }

  /** A line of a text: not empty, with no `'\n'` before its last character. */
  predicate IsLine(l: string) {
    l != [] && '\n' !in l[..|l| - 1]
  }

  predicate EndsInNewline(l: string) {
    l != [] && l[|l| - 1] == '\n'
  }

  /** The lines `readlines` gives keep their `'\n'` terminators: none is empty, none
      holds a `'\n'` before its last character, and only the last may lack a `'\n'`. */
  lemma {:induction false} SplitLinesShape(s: string)
    ensures forall i :: 0 <= i < |SplitLines(s)| ==> IsLine(SplitLines(s)[i])
    ensures forall i :: 0 <= i < |SplitLines(s)| - 1 ==> EndsInNewline(SplitLines(s)[i])
    decreases |s|
  {
    if s != [] {
      var k := LineLength(s);
      var rest := SplitLines(s[k..]);
      LineLengthShape(s);
      SplitLinesShape(s[k..]);
      var lines := [s[..k]] + rest;
      assert lines == SplitLines(s);
      assert lines[0][..k - 1] == s[..k - 1];
      forall i | 0 <= i < |lines| ensures IsLine(lines[i]) {
        if i > 0 { assert lines[i] == rest[i - 1]; }
      }
      forall i | 0 <= i < |lines| - 1 ensures EndsInNewline(lines[i]) {
        if i > 0 { assert lines[i] == rest[i - 1]; } else { assert rest != [] && k < |s|; }
      }
    }
  }

  predicate IsDigit(c: char) {
    '0' as int <= c as int <= '9' as int
  }

  function DigitChar(d: nat): (c: char)
    requires d < 10
    ensures IsDigit(c) && c as int - '0' as int == d
  {
    (d + '0' as int) as char
  }

  function DigitValue(c: char): nat
    requires IsDigit(c)
  {
    c as int - '0' as int
  }

  /** The decimal text of `n`, as the f-string `f"{n}"` renders it. */
  function Decimal(n: nat): (s: string)
    ensures |s| >= 1 && (forall i :: 0 <= i < |s| ==> IsDigit(s[i]))
    ensures |s| > 1 ==> s[0] != '0'
  {
    if n < 10 then [DigitChar(n)] else Decimal(n / 10) + [DigitChar(n % 10)]
  }

  /** The number a string of decimal digits denotes. */
  function DecimalValue(s: string): nat
    requires forall i :: 0 <= i < |s| ==> IsDigit(s[i])
  {
    if s == [] then 0
    else DecimalValue(s[..|s| - 1]) * 10 + DigitValue(s[|s| - 1])
  }

  /** Rendering a number and reading it back gives the number. */
  lemma {:induction false} DecimalRoundTrip(n: nat)
    ensures DecimalValue(Decimal(n)) == n
  {
    if n >= 10 {
      DecimalRoundTrip(n / 10);
      var s := Decimal(n);
      assert s[..|s| - 1] == Decimal(n / 10);
    }
  }
}
