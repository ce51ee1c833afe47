/** ASCII text primitives the command-line client relies on: Rust's `str::trim`,
    `to_lowercase`, `{:<width$}` padding, `slice::join`, `u64::to_string`, and
    splitting a path at `/`. Strings are sequences of ASCII characters, so a
    string's length is both its byte length and its display width. */
module Text {

  // ---------------------------------------------------------------- whitespace

  /** Whitespace as Rust's `char::is_whitespace` sees it, restricted to ASCII:
      tab, line feed, vertical tab, form feed, carriage return and space. */
  predicate IsWhitespace(c: char) {
    c == ' ' || '\t' <= c <= '\r'
  }

  predicate AllWhitespace(s: string) {
    forall i :: 0 <= i < |s| ==> IsWhitespace(s[i])
  }

  /** `s` with its leading whitespace removed: a suffix of `s`, everything cut
      off is whitespace, and what is left does not start with whitespace. */
  function TrimStart(s: string): (r: string)
    ensures |r| <= |s| && r == s[|s| - |r|..]
    ensures AllWhitespace(s[..|s| - |r|])
    ensures r == [] || !IsWhitespace(r[0])
  {
    if |s| > 0 && IsWhitespace(s[0]) then
      var r := TrimStart(s[1..]);
      TrimStartStep(s, r);
      r
    else s
  }

  lemma TrimStartStep(s: string, r: string)
    requires |s| > 0 && IsWhitespace(s[0]) && |r| <= |s| - 1
    requires r == s[1..][|s| - 1 - |r|..] && AllWhitespace(s[1..][..|s| - 1 - |r|])
    ensures r == s[|s| - |r|..] && AllWhitespace(s[..|s| - |r|])
  {
    var n := |s| - |r|;
    assert s[1..][n - 1..] == s[n..];
    forall k | 0 <= k < n ensures IsWhitespace(s[..n][k]) {
      if k > 0 {
        assert s[..n][k] == s[1..][..n - 1][k - 1];
      }
    }
  }

  /** `s` with its trailing whitespace removed: a prefix of `s`, everything cut
      off is whitespace, and what is left does not end with whitespace. */
  function TrimEnd(s: string): (r: string)
    ensures |r| <= |s| && r == s[..|r|]
    ensures AllWhitespace(s[|r|..])
    ensures r == [] || !IsWhitespace(r[|r| - 1])
  {
    if |s| > 0 && IsWhitespace(s[|s| - 1]) then
      var r := TrimEnd(s[..|s| - 1]);
      TrimEndStep(s, r);
      r
    else s
  }

  lemma TrimEndStep(s: string, r: string)
    requires |s| > 0 && IsWhitespace(s[|s| - 1]) && |r| <= |s| - 1
    requires r == s[..|s| - 1][..|r|] && AllWhitespace(s[..|s| - 1][|r|..])
    ensures r == s[..|r|] && AllWhitespace(s[|r|..])
  {
    assert s[..|s| - 1][..|r|] == s[..|r|];
    forall k | 0 <= k < |s| - |r| ensures IsWhitespace(s[|r|..][k]) {
      if k < |s| - 1 - |r| {
        assert s[|r|..][k] == s[..|s| - 1][|r|..][k];
      }
    }
  }

  /** Rust's `str::trim`: `s` without its leading and trailing whitespace. */
  function Trim(s: string): (r: string)
    ensures |r| <= |s|
    ensures r == [] || (!IsWhitespace(r[0]) && !IsWhitespace(r[|r| - 1]))
  {
    TrimEnd(TrimStart(s))
  }

  /** Trimming leaves nothing exactly when there is nothing but whitespace. */
  lemma TrimEmptyIff(s: string)
    ensures Trim(s) == [] <==> AllWhitespace(s)
  {
    if AllWhitespace(s) {
      TrimStartOfBlank(s);
    }
    if Trim(s) == [] {
      BlankOfTrimEmpty(s);
    }
  }

  /** A string that neither starts nor ends with whitespace trims to itself. */
  lemma TrimUnchanged(s: string)
    requires s != [] && !IsWhitespace(s[0]) && !IsWhitespace(s[|s| - 1])
    ensures Trim(s) == s
  {
    assert TrimStart(s) == s;
    assert TrimEnd(s) == s;
  }

  lemma {:induction false} TrimStartOfBlank(s: string)
    requires AllWhitespace(s)
    ensures TrimStart(s) == []
  {
    if s != [] {
      assert IsWhitespace(s[0]);
      assert forall k :: 0 <= k < |s| - 1 ==> s[1..][k] == s[k + 1];
      TrimStartOfBlank(s[1..]);
    }
  }

  lemma BlankOfTrimEmpty(s: string)
    requires Trim(s) == []
    ensures AllWhitespace(s)
  {
    var a := TrimStart(s);
    var i := |s| - |a|;
    assert TrimEnd(a) == [];
    assert a[0..] == a;
    assert AllWhitespace(a);
    assert AllWhitespace(s[..i]);
    assert s == s[..i] + a;
    AllWhitespaceConcat(s[..i], a);
  }

  lemma AllWhitespaceConcat(x: string, y: string)
    ensures AllWhitespace(x) && AllWhitespace(y) ==> AllWhitespace(x + y)
  {
    if AllWhitespace(x) && AllWhitespace(y) {
      forall k | 0 <= k < |x + y| ensures IsWhitespace((x + y)[k]) {
        if k < |x| {
          assert (x + y)[k] == x[k];
        } else {
          assert (x + y)[k] == y[k - |x|];
        }
      }
    }
  }

  lemma TrimExampleToken()
    ensures Trim("  tok  \n") == "tok"
  {
    assert TrimStart("  tok  \n") == "tok  \n" by {
      assert "  tok  \n"[1..] == " tok  \n";
      assert " tok  \n"[1..] == "tok  \n";
    }
    assert TrimEnd("tok  \n") == "tok" by {
      assert "tok  \n"[..5] == "tok  ";
      assert "tok  "[..4] == "tok ";
      assert "tok "[..3] == "tok";
    }
  }

  lemma TrimExampleBlank()
    ensures Trim("   \n") == ""
  {
    TrimEmptyIff("   \n");
  }

  // ---------------------------------------------------------------- case

  /** ASCII lower-casing of one character; every other character is kept. */
  function LowerChar(c: char): char {
    if 'A' <= c <= 'Z' then (c as int + 32) as char else c
  }

  /** Rust's `str::to_lowercase`, restricted to ASCII letters. */
  function ToLower(s: string): (r: string)
    ensures |r| == |s|
  {
    seq(|s|, i requires 0 <= i < |s| => LowerChar(s[i]))
  }

  // ---------------------------------------------------------------- layout

  function Spaces(n: nat): (r: string)
    ensures |r| == n && forall i :: 0 <= i < n ==> r[i] == ' '
  {
    seq(n, _ => ' ')
  }

  /** `format!("{:<w$}", s)`: `s` left-aligned in a field of `w` characters,
      padded with spaces on the right and never truncated. */
  function PadRight(s: string, w: nat): (r: string)
    ensures |r| == if |s| < w then w else |s|
    ensures r[..|s|] == s
    ensures forall i :: |s| <= i < |r| ==> r[i] == ' '
  {
    if |s| < w then s + Spaces(w - |s|) else s
  }

  /** `parts.join(sep)`: the parts in order with `sep` between neighbours. */
  function Join(parts: seq<string>, sep: string): string
  {
    if |parts| == 0 then ""
    else if |parts| == 1 then parts[0]
    else parts[0] + sep + Join(parts[1..], sep)
  }

  /** `needle` occurs in `haystack` starting at position `i`. */
  predicate OccursAt(haystack: string, needle: string, i: int) {
    0 <= i <= |haystack| - |needle| && haystack[i..i + |needle|] == needle
  }

  /** `haystack` contains `needle` (Rust's `str::contains`). */
  ghost predicate Contains(haystack: string, needle: string) {
    exists i :: OccursAt(haystack, needle, i)
  }

  /** An occurrence survives adding text on either side. */
  lemma OccursWithin(pre: string, s: string, post: string, needle: string, i: int)
    requires OccursAt(s, needle, i)
    ensures OccursAt(pre + s + post, needle, |pre| + i)
  {
    assert (pre + s + post)[|pre| + i..|pre| + i + |needle|] == s[i..i + |needle|];
  }

  /** Every part shows up in the joined text. */
  lemma {:induction false} JoinContainsParts(parts: seq<string>, sep: string, k: nat)
    requires k < |parts|
    ensures Contains(Join(parts, sep), parts[k])
    decreases |parts|
  {
    if |parts| == 1 {
      assert OccursAt(parts[0], parts[0], 0);
    } else if k == 0 {
      OccursWithin("", parts[0], sep + Join(parts[1..], sep), parts[0], 0);
      assert "" + parts[0] + (sep + Join(parts[1..], sep)) == Join(parts, sep);
    } else {
      JoinContainsParts(parts[1..], sep, k - 1);
      var i :| OccursAt(Join(parts[1..], sep), parts[k], i);
      OccursWithin(parts[0] + sep, Join(parts[1..], sep), "", parts[k], i);
      assert parts[0] + sep + Join(parts[1..], sep) + "" == Join(parts, sep);
    }
  }

  /** Where part `k` of a join starts: every earlier part, each followed by
      the separator. */
  function JoinStart(parts: seq<string>, sep: string, k: nat): nat
    requires k < |parts|
  {
    if k == 0 then 0 else |parts[0]| + |sep| + JoinStart(parts[1..], sep, k - 1)
  }

  /** Part `k` of a join sits at `JoinStart(k)`. */
  lemma {:induction false} JoinPartAt(parts: seq<string>, sep: string, k: nat)
    requires k < |parts|
    ensures OccursAt(Join(parts, sep), parts[k], JoinStart(parts, sep, k))
    decreases |parts|
  {
    if |parts| == 1 {
      assert parts[0][0..|parts[0]|] == parts[0];
    } else if k == 0 {
      OccursWithin("", parts[0], sep + Join(parts[1..], sep), parts[0], 0);
      assert parts[0][0..|parts[0]|] == parts[0];
      assert "" + parts[0] + (sep + Join(parts[1..], sep)) == Join(parts, sep);
    } else {
      JoinPartAt(parts[1..], sep, k - 1);
      assert parts[1..][k - 1] == parts[k];
      OccursWithin(parts[0] + sep, Join(parts[1..], sep), "", parts[k], JoinStart(parts[1..], sep, k - 1));
      assert parts[0] + sep + Join(parts[1..], sep) + "" == Join(parts, sep);
    }
  }

  /** Every part but the last is followed directly by the separator, and the
      next part starts right after it. */
  lemma {:induction false} JoinSeparatorAt(parts: seq<string>, sep: string, k: nat)
    requires k + 1 < |parts|
    ensures OccursAt(Join(parts, sep), sep, JoinStart(parts, sep, k) + |parts[k]|)
    ensures JoinStart(parts, sep, k + 1) == JoinStart(parts, sep, k) + |parts[k]| + |sep|
    decreases |parts|
  {
    var rest := Join(parts[1..], sep);
    if k == 0 {
      assert sep[0..|sep|] == sep;
      OccursWithin(parts[0], sep, rest, sep, 0);
      assert parts[0] + sep + rest == Join(parts, sep);
    } else {
      JoinSeparatorAt(parts[1..], sep, k - 1);
      assert parts[1..][k - 1] == parts[k];
      OccursWithin(parts[0] + sep, rest, "", sep, JoinStart(parts[1..], sep, k - 1) + |parts[k]|);
      assert parts[0] + sep + rest + "" == Join(parts, sep);
    }
  }

  /** The join ends with its last part: nothing follows it. */
  lemma {:induction false} JoinLength(parts: seq<string>, sep: string)
    requires |parts| >= 1
    ensures |Join(parts, sep)| == JoinStart(parts, sep, |parts| - 1) + |parts[|parts| - 1]|
    decreases |parts|
  {
    if |parts| > 1 {
      JoinLength(parts[1..], sep);
      assert parts[1..][|parts| - 2] == parts[|parts| - 1];
    }
  }

  /** `s.split(sep)`: the maximal pieces of `s` between occurrences of `sep`;
      there is always at least one piece, and no piece contains `sep`. */
  function Split(s: string, sep: char): (r: seq<string>)
    ensures |r| >= 1
    ensures forall k :: 0 <= k < |r| ==> sep !in r[k]
  {
    if s == [] then [""]
    else
      var rest := Split(s[1..], sep);
      if s[0] == sep then [""] + rest
      else [[s[0]] + rest[0]] + rest[1..]
  }

  lemma {:induction false} SplitPrefix(a: string, t: string, sep: char)
    requires sep !in a
    ensures Split(a + t, sep) == [a + Split(t, sep)[0]] + Split(t, sep)[1..]
    decreases |a|
  {
    if a != [] {
      assert (a + t)[1..] == a[1..] + t;
      SplitPrefix(a[1..], t, sep);
      assert [a[0]] + (a[1..] + Split(t, sep)[0]) == a + Split(t, sep)[0];
    } else {
      assert a + t == t;
      assert a + Split(t, sep)[0] == Split(t, sep)[0];
      assert Split(t, sep) == [Split(t, sep)[0]] + Split(t, sep)[1..];
    }
  }

  /** A string without the separator is a single piece. */
  lemma SplitNoSeparator(s: string, sep: char)
    requires sep !in s
    ensures Split(s, sep) == [s]
  {
    SplitPrefix(s, "", sep);
    assert s + "" == s;
  }

  /** A separator ends the current piece and starts a new one. */
  lemma SplitConsSep(t: string, sep: char)
    ensures Split([sep] + t, sep) == [""] + Split(t, sep)
  {
    assert ([sep] + t)[1..] == t;
  }

  /** Any other character joins the first piece. */
  lemma SplitConsChar(c: char, t: string, sep: char)
    requires c != sep
    ensures Split([c] + t, sep) == [[c] + Split(t, sep)[0]] + Split(t, sep)[1..]
  {
    assert ([c] + t)[1..] == t;
  }

  /** Splitting at a separator splits each side on its own. */
  lemma {:induction false} SplitAround(a: string, b: string, sep: char)
    ensures Split(a + [sep] + b, sep) == Split(a, sep) + Split(b, sep)
    decreases |a|
  {
    if a == [] {
      assert a + [sep] + b == [sep] + b;
      SplitConsSep(b, sep);
    } else {
      SplitAround(a[1..], b, sep);
      var t := a[1..] + [sep] + b;
      assert a + [sep] + b == [a[0]] + t;
      assert a == [a[0]] + a[1..];
      if a[0] == sep {
        SepStep(a[1..], t, Split(a[1..], sep), Split(b, sep), sep);
      } else {
        CharStep(a[0], a[1..], t, Split(a[1..], sep), Split(b, sep), sep);
      }
    }
  }

  lemma SepStep(a': string, t: string, left: seq<string>, right: seq<string>, sep: char)
    requires Split(t, sep) == left + right && Split(a', sep) == left
    ensures Split([sep] + t, sep) == Split([sep] + a', sep) + right
  {
    SplitConsSep(t, sep);
    SplitConsSep(a', sep);
    ConsAppend("", left, right);
  }

  lemma CharStep(c: char, a': string, t: string, left: seq<string>, right: seq<string>, sep: char)
    requires c != sep && |left| >= 1
    requires Split(t, sep) == left + right && Split(a', sep) == left
    ensures Split([c] + t, sep) == Split([c] + a', sep) + right
  {
    SplitConsChar(c, t, sep);
    SplitConsChar(c, a', sep);
    AppendHeadTail(left, right);
    ConsAppend([c] + left[0], left[1..], right);
  }

  lemma ConsAppend<T>(x: T, l: seq<T>, r: seq<T>)
    ensures [x] + (l + r) == ([x] + l) + r
  {
  }

  lemma AppendHeadTail<T>(l: seq<T>, r: seq<T>)
    requires |l| >= 1
    ensures (l + r)[0] == l[0] && (l + r)[1..] == l[1..] + r
  {
  }

  /** Splitting undoes joining, as long as no part contains the separator. */
  lemma {:induction false} SplitJoin(parts: seq<string>, sep: char)
    requires |parts| >= 1
    requires forall k :: 0 <= k < |parts| ==> sep !in parts[k]
    ensures Split(Join(parts, [sep]), sep) == parts
    decreases |parts|
  {
    if |parts| == 1 {
      SplitPrefix(parts[0], "", sep);
      assert parts[0] + "" == parts[0];
    } else {
      var tail := Join(parts[1..], [sep]);
      SplitJoin(parts[1..], sep);
      assert Join(parts, [sep]) == parts[0] + ([sep] + tail);
      SplitPrefix(parts[0], [sep] + tail, sep);
      assert ([sep] + tail)[1..] == tail;
      assert Split([sep] + tail, sep) == [""] + parts[1..];
      assert parts[0] + "" == parts[0];
      assert parts == [parts[0]] + parts[1..];
    }
  }

  // ---------------------------------------------------------------- numbers

  predicate IsDigit(c: char) {
    '0' <= c <= '9'
  }

  function DigitChar(d: nat): (c: char)
    requires d < 10
    ensures IsDigit(c) && c as int - '0' as int == d
  {
    ('0' as int + d) as char
  }

  /** `n.to_string()`: the shortest decimal numeral for `n`. */
  function Decimal(n: nat): (r: string)
    ensures |r| >= 1 && forall i :: 0 <= i < |r| ==> IsDigit(r[i])
    ensures |r| > 1 ==> r[0] != '0'
  {
    if n < 10 then [DigitChar(n)] else Decimal(n / 10) + [DigitChar(n % 10)]
  }

  /** The number a decimal numeral denotes. */
  function DecimalValue(s: string): nat
    requires forall i :: 0 <= i < |s| ==> IsDigit(s[i])
  {
    if s == [] then 0
    else
      assert IsDigit(s[|s| - 1]);
      10 * DecimalValue(s[..|s| - 1]) + (s[|s| - 1] as int - '0' as int)
  }

  /** Reading back the numeral `Decimal` prints gives the number printed. */
  lemma {:induction false} DecimalRoundTrip(n: nat)
    ensures DecimalValue(Decimal(n)) == n
  {
    if n >= 10 {
      var s := Decimal(n);
      DecimalRoundTrip(n / 10);
      assert s[..|s| - 1] == Decimal(n / 10);
    }
  }

  /** Distinct numbers print as distinct numerals. */
  lemma DecimalInjective(m: nat, n: nat)
    requires Decimal(m) == Decimal(n)
    ensures m == n
  {
    DecimalRoundTrip(m);
    DecimalRoundTrip(n);
  }
}
