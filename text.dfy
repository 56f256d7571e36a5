/** Text primitives of the engine: line and field splitting as `std::getline`
    performs it, joining with a separator, `stoi`-style integer recognition,
    `std::to_string` for integers, and `std::string` ordering. */
module Text {

  /** The lower and upper bound of a 32-bit C++ `int`. */
  const IntMin: int := -0x8000_0000
  const IntMax: int := 0x7FFF_FFFF

  type Int32 = x: int | IntMin <= x <= IntMax

  // ---------------------------------------------------------------------------
  // Splitting and joining
  // ---------------------------------------------------------------------------

  /** Every segment of `s` between occurrences of `d`: one more segment than
      there are delimiters, empty segments included. */
  function Split(s: string, d: char): (r: seq<string>)
    ensures |r| >= 1
    ensures forall i :: 0 <= i < |r| ==> d !in r[i]
    decreases |s|
  {
    if s == [] then [""]
    else
      var rest := Split(s[1..], d);
      if s[0] == d then [""] + rest
      else [[s[0]] + rest[0]] + rest[1..]
  }

  /** The pieces that repeated `getline(stream, piece, d)` extracts from `s`:
      the segments between delimiters, except that a final empty segment is
      not extracted (the stream is then at its end). So "1,2," gives
      ["1", "2"], "" gives [] and ",1" gives ["", "1"]. */
  function SplitGetline(s: string, d: char): (r: seq<string>)
    ensures forall i :: 0 <= i < |r| ==> d !in r[i]
  {
    DropLastEmpty(Split(s, d))
  }

  /** `segs` without its last segment when that one is empty. */
  function DropLastEmpty(segs: seq<string>): seq<string>
    requires |segs| >= 1
  {
    if segs[|segs| - 1] == "" then segs[..|segs| - 1] else segs
  }

  /** The pieces of `ps` with `sep` between each two neighbours. */
  function Join(ps: seq<string>, sep: string): string
  {
    if |ps| == 0 then ""
    else if |ps| == 1 then ps[0]
    else ps[0] + sep + Join(ps[1..], sep)
  }

  /** A character in no piece and not in the separator is not in the
      joined text. */
  lemma {:induction false} JoinFree(ps: seq<string>, sep: string, d: char)
    requires d !in sep
    requires forall i :: 0 <= i < |ps| ==> d !in ps[i]
    ensures d !in Join(ps, sep)
    decreases |ps|
  {
    if |ps| > 1 {
      JoinFree(ps[1..], sep, d);
    }
  }

  /** The lines of `ls`, each followed by the terminator `d`, as written by
      a sequence of `stream << line << endl`. */
  function Terminated(ls: seq<string>, d: char): string
  {
    if ls == [] then "" else ls[0] + [d] + Terminated(ls[1..], d)
  }

  lemma {:induction false} SplitOfDelimiterFree(p: string, d: char)
    requires d !in p
    ensures Split(p, d) == [p]
    decreases |p|
  {
    if p != [] {
      SplitOfDelimiterFree(p[1..], d);
      assert [p[0]] + p[1..] == p;
    }
  }

  lemma {:induction false} SplitCons(p: string, d: char, s: string)
    requires d !in p
    ensures Split(p + [d] + s, d) == [p] + Split(s, d)
    decreases |p|
  {
    if p == [] {
      assert p + [d] + s == [d] + s;
      assert ([d] + s)[1..] == s;
    } else {
      var t := p + [d] + s;
      assert t[0] == p[0];
      assert t[1..] == p[1..] + [d] + s;
      SplitCons(p[1..], d, s);
      assert [p[0]] + p[1..] == p;
    }
  }

  /** Splitting undoes joining, as long as no piece contains the delimiter. */
  lemma {:induction false} SplitJoin(ps: seq<string>, d: char)
    requires |ps| >= 1
    requires forall i :: 0 <= i < |ps| ==> d !in ps[i]
    ensures Split(Join(ps, [d]), d) == ps
    decreases |ps|
  {
    if |ps| == 1 {
      SplitOfDelimiterFree(ps[0], d);
    } else {
      SplitJoin(ps[1..], d);
      SplitCons(ps[0], d, Join(ps[1..], [d]));
      assert [ps[0]] + ps[1..] == ps;
    }
  }

  /** `getline` recovers joined pieces exactly, unless the last piece is
      empty. */
  lemma SplitGetlineJoin(ps: seq<string>, d: char)
    requires forall i :: 0 <= i < |ps| ==> d !in ps[i]
    requires |ps| == 0 || ps[|ps| - 1] != ""
    ensures SplitGetline(Join(ps, [d]), d) == ps
  {
    if |ps| >= 1 {
      SplitJoin(ps, d);
    }
  }

  /** When the last piece is empty, `getline` loses exactly that piece. */
  lemma SplitGetlineJoinLastEmpty(ps: seq<string>, d: char)
    requires forall i :: 0 <= i < |ps| ==> d !in ps[i]
    requires |ps| >= 1 && ps[|ps| - 1] == ""
    ensures SplitGetline(Join(ps, [d]), d) == ps[..|ps| - 1]
  {
    SplitJoin(ps, d);
    assert DropLastEmpty(ps) == ps[..|ps| - 1];
  }

  lemma {:induction false} SplitTerminated(ls: seq<string>, d: char)
    requires forall i :: 0 <= i < |ls| ==> d !in ls[i]
    ensures Split(Terminated(ls, d), d) == ls + [""]
    decreases |ls|
  {
    if ls != [] {
      SplitTerminated(ls[1..], d);
      SplitCons(ls[0], d, Terminated(ls[1..], d));
      assert [ls[0]] + (ls[1..] + [""]) == ls + [""];
    }
  }

  /** Reading terminated lines back with `getline` gives the lines, empty
      ones included: the terminator of the last line adds no line. */
  lemma SplitGetlineTerminated(ls: seq<string>, d: char)
    requires forall i :: 0 <= i < |ls| ==> d !in ls[i]
    ensures SplitGetline(Terminated(ls, d), d) == ls
  {
    SplitTerminated(ls, d);
    assert (ls + [""])[..|ls|] == ls;
  }

  // ---------------------------------------------------------------------------
  // Integers: stoi and to_string
  // ---------------------------------------------------------------------------

  /** The characters C's `isspace` accepts in the "C" locale:
      space, tab, newline, vertical tab, form feed, carriage return. */
  predicate IsSpace(c: char)
  {
    c == ' ' || ('\t' <= c <= '\r')
  }

  predicate IsDigit(c: char)
  {
    '0' <= c <= '9'
  }

  predicate AllDigits(s: string)
  {
    forall i :: 0 <= i < |s| ==> IsDigit(s[i])
  }

  /** `s` without its leading white space. */
  function SkipSpace(s: string): (r: string)
    ensures |r| <= |s|
    ensures r == [] || !IsSpace(r[0])
    decreases |s|
  {
    if |s| > 0 && IsSpace(s[0]) then SkipSpace(s[1..]) else s
  }

  /** What `SkipSpace` removes is a prefix of white space only; what it
      keeps is the rest of the text. */
  lemma {:induction false} SkipSpaceSuffix(s: string)
    ensures SkipSpace(s) == s[|s| - |SkipSpace(s)|..]
    ensures forall i :: 0 <= i < |s| - |SkipSpace(s)| ==> IsSpace(s[i])
    decreases |s|
  {
    if |s| > 0 && IsSpace(s[0]) {
      var r := SkipSpace(s[1..]);
      SkipSpaceSuffix(s[1..]);
      assert s[1..][|s| - 1 - |r|..] == s[|s| - |r|..];
      assert forall i :: 1 <= i < |s| - |r| ==> s[i] == s[1..][i - 1];
    }
  }

  function DigitValue(c: char): int
  {
    c as int - '0' as int
  }

  /** The value of the decimal numeral `s`, most significant digit first. */
  function DigitsValue(s: string): int
  {
    if s == [] then 0 else DigitsValue(s[..|s| - 1]) * 10 + DigitValue(s[|s| - 1])
  }

  /** The text after white space and an optional sign. */
  function Magnitude(s: string): string
  {
    var t := SkipSpace(s);
    if |t| > 0 && (t[0] == '+' || t[0] == '-') then t[1..] else t
  }

  predicate IsNegative(s: string)
  {
    var t := SkipSpace(s);
    |t| > 0 && t[0] == '-'
  }

  /** The value `strtol` computes when it reads all of `s`. */
  function IntegerValue(s: string): int
  {
    if IsNegative(s) then -DigitsValue(Magnitude(s)) else DigitsValue(Magnitude(s))
  }

  /** `is_integer`: `stoi` succeeds and consumes every character. That is,
      optional leading white space, an optional sign and at least one decimal
      digit make up all of `s`, and the value fits in an `int` (otherwise
      `stoi` throws `out_of_range`, which `is_integer` turns into false). */
  predicate IsInteger(s: string)
  {
    var m := Magnitude(s);
    |m| > 0 && AllDigits(m) && IntMin <= IntegerValue(s) <= IntMax
  }

  /** Leading white space is skipped by `stoi`, trailing white space is
      not: an integer text ends in a digit, and it reads the same without
      its leading white space. */
  lemma IsIntegerShape(s: string)
    requires IsInteger(s)
    ensures |s| > 0 && IsDigit(s[|s| - 1])
    ensures IsInteger(SkipSpace(s)) && IntegerValue(SkipSpace(s)) == IntegerValue(s)
  {
    var t := SkipSpace(s);
    var m := Magnitude(s);
    SkipSpaceSuffix(s);
    assert m == t[|t| - |m|..];
    assert s[|s| - 1] == m[|m| - 1];
    assert SkipSpace(t) == t;
  }

  /** The decimal text of `n`, as `std::to_string` or `cout << n` write it. */
  function NatToString(n: nat): (r: string)
    ensures |r| >= 1 && AllDigits(r)
    ensures DigitsValue(r) == n
    ensures r[0] != '0' || n == 0
  {
    var c := ('0' as int + n % 10) as char;
    if n < 10 then [c]
    else
      var r := NatToString(n / 10) + [c];
      assert r[..|r| - 1] == NatToString(n / 10);
      r
  }

  /** `std::to_string(int)`: a minus sign for negative values, then the
      digits of the magnitude. */
  function IntToString(x: int): (r: string)
    ensures |r| >= 1 && (r[0] == '-' <==> x < 0)
    ensures var digits := if x < 0 then r[1..] else r;
      && |digits| >= 1 && AllDigits(digits) && (digits[0] != '0' || x == 0)
      && DigitsValue(digits) == (if x < 0 then -x else x)
  {
    if x < 0 then "-" + NatToString(-x) else NatToString(x)
  }

  /** The text `fillna` writes for an integer is a non-empty integer text
      that `stoi` reads back as the same value. */
  lemma IntToStringRoundTrip(x: Int32)
    ensures IntToString(x) != ""
    ensures IsInteger(IntToString(x)) && IntegerValue(IntToString(x)) == x
  {
    var s := IntToString(x);
    assert s[0] == '-' || IsDigit(s[0]);
    assert SkipSpace(s) == s;
    if x < 0 {
      assert Magnitude(s) == NatToString(-(x as int));
    } else {
      assert Magnitude(s) == NatToString(x);
    }
  }

  // ---------------------------------------------------------------------------
  // std::string ordering
  // ---------------------------------------------------------------------------

  /** `a.compare(b)` reduced to its sign: characters are compared one by one
      until the first difference, and a proper prefix is the smaller string.
      `char_traits<char>` compares characters as unsigned bytes, which is the
      order of their codes here. */
  function LexCompare(a: string, b: string): (r: int)
    ensures -1 <= r <= 1
    ensures r == 0 <==> a == b
  {
    if a == [] && b == [] then 0
    else if a == [] then -1
    else if b == [] then 1
    else if a[0] < b[0] then -1
    else if a[0] > b[0] then 1
    else
      var r := LexCompare(a[1..], b[1..]);
      assert a == [a[0]] + a[1..] && b == [b[0]] + b[1..];
      r
  }

  /** The first differing character decides the comparison: when `a` and
      `b` agree before position `k` and differ at `k`, `a` is the smaller
      exactly when its character at `k` is. */
  lemma {:induction false} LexCompareFirstDifference(a: string, b: string, k: nat)
    requires k < |a| && k < |b| && a[..k] == b[..k] && a[k] != b[k]
    ensures LexCompare(a, b) == (if a[k] < b[k] then -1 else 1)
    decreases k
  {
    if k > 0 {
      assert a[0] == a[..k][0] == b[..k][0] == b[0];
      assert a[1..][..k - 1] == a[..k][1..] == b[..k][1..] == b[1..][..k - 1];
      LexCompareFirstDifference(a[1..], b[1..], k - 1);
    }
  }

  /** A proper prefix is the smaller string. */
  lemma {:induction false} LexComparePrefix(a: string, b: string)
    requires |a| < |b| && a == b[..|a|]
    ensures LexCompare(a, b) == -1 && LexCompare(b, a) == 1
    decreases |a|
  {
    if a != [] {
      assert a[0] == b[0];
      assert a[1..] == b[1..][..|a| - 1];
      LexComparePrefix(a[1..], b[1..]);
    }
  }

  /** Swapping the operands flips the sign of the comparison. */
  lemma {:induction false} LexCompareFlip(a: string, b: string)
    ensures LexCompare(b, a) == -LexCompare(a, b)
    decreases |a|
  {
    if a != [] && b != [] && a[0] == b[0] {
      LexCompareFlip(a[1..], b[1..]);
    }
  }
}
