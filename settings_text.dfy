/** The text operations EditorSettings.h relies on: trimming C-locale whitespace, std::getline
    line splitting, std::stoi and std::to_string on int, ASCII tolower and std::string ordering. */
module SettingsText {
  import opened Wrappers

  /** The 32-bit int of the source. */
  newtype Int32 = x: int | -0x8000_0000 <= x < 0x8000_0000

  /** std::isspace in the C locale: space, \t, \n, \v, \f and \r. */
  predicate IsSpace(c: char) {
    c == ' ' || '\t' <= c <= '\r'
  }

  /** A string with no whitespace at either end. */
  predicate NoEdgeSpace(s: string) {
    s == [] || (!IsSpace(s[0]) && !IsSpace(s[|s| - 1]))
  }

  /** The first index from `i` on that holds no whitespace, or |s|. */
  function SkipSpace(s: string, i: nat): (n: nat)
    requires i <= |s|
    ensures i <= n <= |s| && (n < |s| ==> !IsSpace(s[n]))
    decreases |s| - i
  {
    if i < |s| && IsSpace(s[i]) then SkipSpace(s, i + 1) else i
  }

  /** The index just after the last character before `j` that is no whitespace, or 0. */
  function SkipSpaceBack(s: string, j: nat): (n: nat)
    requires j <= |s|
    ensures n <= j && (n > 0 ==> !IsSpace(s[n - 1]))
  {
    if j > 0 && IsSpace(s[j - 1]) then SkipSpaceBack(s, j - 1) else j
  }

  /** Everything SkipSpace passes over is whitespace. */
  lemma {:induction false} SkipSpaceAll(s: string, i: nat)
    requires i <= |s|
    ensures forall k :: i <= k < SkipSpace(s, i) ==> IsSpace(s[k])
    decreases |s| - i
  {
    if i < |s| && IsSpace(s[i]) {
      SkipSpaceAll(s, i + 1);
    }
  }

  /** Everything SkipSpaceBack passes over is whitespace. */
  lemma {:induction false} SkipSpaceBackAll(s: string, j: nat)
    requires j <= |s|
    ensures forall k :: SkipSpaceBack(s, j) <= k < j ==> IsSpace(s[k])
  {
    if j > 0 && IsSpace(s[j - 1]) {
      SkipSpaceBackAll(s, j - 1);
    }
  }

  /** How many whitespace characters the string starts with. */
  function LeadingSpace(s: string): nat {
    SkipSpace(s, 0)
  }

  /** Where the whitespace the string ends with begins. */
  function TrailingSpace(s: string): nat {
    SkipSpaceBack(s, |s|)
  }

  /** The string after its leading whitespace is erased. */
  function TrimLeft(s: string): string {
    s[LeadingSpace(s)..]
  }

  /** The string after its trailing whitespace is erased. */
  function TrimRight(s: string): string {
    s[..TrailingSpace(s)]
  }

  /** Trim's result: leading, then trailing whitespace erased. */
  function Trimmed(s: string): string {
    TrimRight(TrimLeft(s))
  }

  /** Trimming leaves no whitespace at either end. */
  lemma TrimmedEdges(s: string)
    ensures NoEdgeSpace(Trimmed(s))
  {
    var l := TrimLeft(s);
    var r := TrimRight(l);
    if r != [] {
      assert r[0] == l[0];
    }
  }

  /** Trimming keeps a middle piece of the string and erases only whitespace around it. */
  lemma TrimmedPiece(s: string)
    ensures var i := LeadingSpace(s);
            && i + |Trimmed(s)| <= |s| && Trimmed(s) == s[i..i + |Trimmed(s)|]
            && (forall k :: 0 <= k < i ==> IsSpace(s[k]))
            && (forall k :: i + |Trimmed(s)| <= k < |s| ==> IsSpace(s[k]))
  {
    var i := LeadingSpace(s);
    var l := TrimLeft(s);
    var r := TrimRight(l);
    SkipSpaceAll(s, 0);
    SkipSpaceBackAll(l, |l|);
    forall k | i + |r| <= k < |s|
      ensures IsSpace(s[k])
    {
      assert s[k] == l[k - i];
    }
  }

  /** A string with no whitespace at its ends is its own trim. */
  lemma TrimmedFixed(s: string)
    requires NoEdgeSpace(s)
    ensures Trimmed(s) == s
  {
  }

  /** Trimming twice is trimming once. */
  lemma TrimmedIdempotent(s: string)
    ensures Trimmed(Trimmed(s)) == Trimmed(s)
  {
    TrimmedEdges(s);
    TrimmedFixed(Trimmed(s));
  }

  /** EditorSettings::Trim: the whitespace before the first other character is erased, then
      the whitespace after the last one. */
  method Trim(str: string) returns (r: string)
    ensures r == Trimmed(str)
  {
    var i := FirstNonSpace(str);
    SkipSpaceAll(str, 0);
    assert LeadingSpace(str) == i;
    r := str[i..];
    var j := LastNonSpaceEnd(r);
    SkipSpaceBackAll(r, |r|);
    assert TrailingSpace(r) == j;
    r := r[..j];
  }

  /** std::find_if of a non-space character from the front: its index, or |s|. */
  method FirstNonSpace(s: string) returns (i: nat)
    ensures i <= |s| && (forall k :: 0 <= k < i ==> IsSpace(s[k])) && (i < |s| ==> !IsSpace(s[i]))
  {
    i := 0;
    while i < |s| && IsSpace(s[i])
      invariant i <= |s|
      invariant forall k :: 0 <= k < i ==> IsSpace(s[k])
    {
      i := i + 1;
    }
  }

  /** std::find_if of a non-space character from the back: the index just after it, or 0. */
  method LastNonSpaceEnd(s: string) returns (j: nat)
    ensures j <= |s| && (forall k :: j <= k < |s| ==> IsSpace(s[k])) && (j > 0 ==> !IsSpace(s[j - 1]))
  {
    j := |s|;
    while j > 0 && IsSpace(s[j - 1])
      invariant j <= |s|
      invariant forall k :: j <= k < |s| ==> IsSpace(s[k])
    {
      j := j - 1;
    }
  }

  /** The index of the first `c` in `s` from `i` on, or |s| when there is none. */
  function FindCharFrom(s: string, c: char, i: nat): (r: nat)
    requires i <= |s|
    ensures i <= r <= |s| && (r < |s| ==> s[r] == c)
    decreases |s| - i
  {
    if i == |s| then i else if s[i] == c then i else FindCharFrom(s, c, i + 1)
  }

  /** The index of the first `c` in `s` (std::string::find), or |s| when there is none. */
  function FindChar(s: string, c: char): nat {
    FindCharFrom(s, c, 0)
  }

  /** No `c` comes between `i` and FindCharFrom. */
  lemma {:induction false} FindCharFromAll(s: string, c: char, i: nat)
    requires i <= |s|
    ensures forall k :: i <= k < FindCharFrom(s, c, i) ==> s[k] != c
    decreases |s| - i
  {
    if i < |s| && s[i] != c {
      FindCharFromAll(s, c, i + 1);
    }
  }

  /** The lines std::getline reads from a text: split at each '\n', with no empty line after a
      final '\n'. */
  function Lines(text: string): (r: seq<string>)
    ensures forall i :: 0 <= i < |r| ==> '\n' !in r[i]
    decreases |text|
  {
    if text == [] then []
    else
      var i := FindChar(text, '\n');
      FindCharFromAll(text, '\n', 0);
      if i == |text| then [text] else [text[..i]] + Lines(text[i + 1..])
  }

  /** Lines written out one after another, each ended by '\n'. */
  function JoinLines(ls: seq<string>): string {
    if ls == [] then [] else ls[0] + "\n" + JoinLines(ls[1..])
  }

  /** Writing one more line appends it and its '\n'. */
  lemma {:induction false} JoinLinesAppend(ls: seq<string>, l: string)
    ensures JoinLines(ls + [l]) == JoinLines(ls) + l + "\n"
  {
    if ls != [] {
      assert (ls + [l])[1..] == ls[1..] + [l];
      JoinLinesAppend(ls[1..], l);
    }
  }

  /** Writing out lines with no '\n' in them and reading them back gives the same lines. */
  lemma {:induction false} LinesOfJoin(ls: seq<string>)
    requires forall i :: 0 <= i < |ls| ==> '\n' !in ls[i]
    ensures Lines(JoinLines(ls)) == ls
  {
    if ls != [] {
      var t := JoinLines(ls);
      var rest := JoinLines(ls[1..]);
      assert t == ls[0] + ("\n" + rest);
      FindFirst(ls[0], "\n" + rest, '\n');
      assert t[..|ls[0]|] == ls[0];
      assert t[|ls[0]| + 1..] == rest;
      LinesOfJoin(ls[1..]);
    }
  }

  /** A character absent from `a` is first found where `b` starts, when `b` starts with it. */
  lemma FindFirst(a: string, b: string, c: char)
    requires c !in a && b != [] && b[0] == c
    ensures FindChar(a + b, c) == |a|
  {
    FindFirstFrom(a, b, c, 0);
  }

  lemma {:induction false} FindFirstFrom(a: string, b: string, c: char, i: nat)
    requires c !in a && b != [] && b[0] == c && i <= |a|
    ensures FindCharFrom(a + b, c, i) == |a|
    decreases |a| - i
  {
    if i < |a| {
      assert (a + b)[i] == a[i];
      FindFirstFrom(a, b, c, i + 1);
    }
  }

  predicate IsDigit(c: char) {
    '0' <= c <= '9'
  }

  function DigitValue(c: char): nat
    requires IsDigit(c)
  {
    c as int - '0' as int
  }

  function DigitChar(d: nat): (c: char)
    requires d < 10
    ensures IsDigit(c) && DigitValue(c) == d
  {
    ('0' as int + d) as char
  }

  /** The end of the run of digits of `s` that starts at `i`. */
  function DigitEnd(s: string, i: nat): (r: nat)
    requires i <= |s|
    ensures i <= r <= |s| && (r < |s| ==> !IsDigit(s[r]))
    decreases |s| - i
  {
    if i < |s| && IsDigit(s[i]) then DigitEnd(s, i + 1) else i
  }

  /** Everything in that run is a digit. */
  lemma {:induction false} DigitEndAll(s: string, i: nat)
    requires i <= |s|
    ensures forall k :: i <= k < DigitEnd(s, i) ==> IsDigit(s[k])
    decreases |s| - i
  {
    if i < |s| && IsDigit(s[i]) {
      DigitEndAll(s, i + 1);
    }
  }

  /** The length of the run of digits `s` starts with. */
  function DigitRun(s: string): nat {
    DigitEnd(s, 0)
  }

  /** The number a string of digits denotes in decimal. */
  function DigitsValue(ds: string): nat
    requires forall k :: 0 <= k < |ds| ==> IsDigit(ds[k])
  {
    if ds == [] then 0 else 10 * DigitsValue(ds[..|ds| - 1]) + DigitValue(ds[|ds| - 1])
  }

  /** std::to_string on a non-negative int: its decimal digits without leading zeros. */
  function NatToString(n: nat): (r: string)
    ensures r != [] && forall k :: 0 <= k < |r| ==> IsDigit(r[k])
    ensures DigitsValue(r) == n
  {
    if n < 10 then [DigitChar(n)]
    else
      var r := NatToString(n / 10) + [DigitChar(n % 10)];
      assert r[..|r| - 1] == NatToString(n / 10);
      r
  }

  /** std::to_string on an int. */
  function IntToString(v: Int32): string {
    if v < 0 then "-" + NatToString(-(v as int)) else NatToString(v as int)
  }

  /** std::stoi: leading whitespace is skipped, an optional sign read, then the longest run of
      digits (anything after it is ignored); no digits, or a value outside int, throws, shown
      here as None. */
  function Stoi(s: string): Option<Int32>
  {
    var t := TrimLeft(s);
    if t != [] && t[0] == '-' then StoiDigits(t[1..], true)
    else if t != [] && t[0] == '+' then StoiDigits(t[1..], false)
    else StoiDigits(t, false)
  }

  /** The digit run at the start of `body`, negated when `neg`, if there is one and it fits
      in an int. */
  function StoiDigits(body: string, neg: bool): Option<Int32>
  {
    var n := DigitRun(body);
    DigitEndAll(body, 0);
    if n == 0 then None
    else
      var v := if neg then -(DigitsValue(body[..n]) as int) else DigitsValue(body[..n]) as int;
      if -0x8000_0000 <= v < 0x8000_0000 then Some(v as Int32) else None
  }

  /** Reading back what to_string wrote gives the same int. */
  lemma StoiOfIntToString(v: Int32)
    ensures Stoi(IntToString(v)) == Some(v)
  {
    if v < 0 {
      StoiSigned(NatToString(-(v as int)), v);
    } else {
      StoiUnsigned(NatToString(v as int), v);
    }
  }

  /** A whole string of digits is read as its value. */
  lemma StoiAllDigits(digits: string, neg: bool, v: Int32)
    requires digits != [] && forall k :: 0 <= k < |digits| ==> IsDigit(digits[k])
    requires v as int == if neg then -(DigitsValue(digits) as int) else DigitsValue(digits) as int
    ensures StoiDigits(digits, neg) == Some(v)
  {
    DigitRunAll(digits);
    assert digits[..|digits|] == digits;
  }

  lemma StoiUnsigned(digits: string, v: Int32)
    requires digits != [] && forall k :: 0 <= k < |digits| ==> IsDigit(digits[k])
    requires DigitsValue(digits) == v as int
    ensures Stoi(digits) == Some(v)
  {
    StoiNoSign(digits);
    StoiAllDigits(digits, false, v);
  }

  /** A string that starts with a digit is read without a sign. */
  lemma StoiNoSign(s: string)
    requires s != [] && IsDigit(s[0])
    ensures Stoi(s) == StoiDigits(s, false)
  {
    assert TrimLeft(s) == s by {
      assert SkipSpace(s, 0) == 0;
    }
  }

  lemma StoiSigned(digits: string, v: Int32)
    requires digits != [] && forall k :: 0 <= k < |digits| ==> IsDigit(digits[k])
    requires DigitsValue(digits) == -(v as int)
    ensures Stoi("-" + digits) == Some(v)
  {
    StoiMinus(digits);
    StoiAllDigits(digits, true, v);
  }

  /** A minus sign followed by a digit is read as a negative number. */
  lemma StoiMinus(digits: string)
    requires digits != [] && IsDigit(digits[0])
    ensures Stoi("-" + digits) == StoiDigits(digits, true)
  {
    var s := "-" + digits;
    assert TrimLeft(s) == s by {
      assert SkipSpace(s, 0) == 0;
    }
    assert s[1..] == digits;
  }

  /** A string of digits is one run. */
  lemma DigitRunAll(ds: string)
    requires forall k :: 0 <= k < |ds| ==> IsDigit(ds[k])
    ensures DigitRun(ds) == |ds|
  {
    DigitEndFull(ds, 0);
  }

  lemma {:induction false} DigitEndFull(ds: string, i: nat)
    requires i <= |ds| && forall k :: i <= k < |ds| ==> IsDigit(ds[k])
    ensures DigitEnd(ds, i) == |ds|
    decreases |ds| - i
  {
    if i < |ds| {
      DigitEndFull(ds, i + 1);
    }
  }

  /** ::tolower on one character in the C locale: only A-Z change. */
  function LowerChar(c: char): char {
    if 'A' <= c <= 'Z' then (c as int + 32) as char else c
  }

  /** std::transform with ::tolower over a string. */
  function ToLower(s: string): (r: string)
    ensures |r| == |s|
    ensures forall k :: 0 <= k < |r| ==> !('A' <= r[k] <= 'Z')
    ensures forall k :: 0 <= k < |s| && !('A' <= s[k] <= 'Z') ==> r[k] == s[k]
  {
    seq(|s|, k requires 0 <= k < |s| => LowerChar(s[k]))
  }

  /** Lowering an already lowered string changes nothing. */
  lemma ToLowerIdempotent(s: string)
    ensures ToLower(ToLower(s)) == ToLower(s)
  {
  }

  /** std::string's operator<: the first differing character decides, and a proper prefix comes
      first. */
  predicate LexLess(a: string, b: string) {
    if a == [] then b != []
    else if b == [] then false
    else if a[0] != b[0] then a[0] < b[0]
    else LexLess(a[1..], b[1..])
  }

  lemma {:induction false} LexIrreflexive(a: string)
    ensures !LexLess(a, a)
  {
    if a != [] {
      LexIrreflexive(a[1..]);
    }
  }

  lemma {:induction false} LexTransitive(a: string, b: string, c: string)
    requires LexLess(a, b) && LexLess(b, c)
    ensures LexLess(a, c)
  {
    if a != [] && b != [] && c != [] && a[0] == b[0] && b[0] == c[0] {
      LexTransitive(a[1..], b[1..], c[1..]);
    }
  }

  lemma {:induction false} LexTotal(a: string, b: string)
    requires a != b
    ensures LexLess(a, b) || LexLess(b, a)
  {
    if a != [] && b != [] && a[0] == b[0] {
      assert a == [a[0]] + a[1..] && b == [b[0]] + b[1..];
      LexTotal(a[1..], b[1..]);
    }
  }

  /** `m` comes first in `s`. */
  predicate IsLeast(m: string, s: set<string>) {
    m in s && forall y :: y in s && y != m ==> LexLess(m, y)
  }

  /** A finite non-empty set of strings has a first element. */
  lemma {:induction false} HasLeastString(s: set<string>)
    requires s != {}
    ensures exists m :: IsLeast(m, s)
    decreases |s|
  {
    var x :| x in s;
    var rest := s - {x};
    if rest == {} {
      assert s == {x};
      assert IsLeast(x, s);
    } else {
      HasLeastString(rest);
      var m :| IsLeast(m, rest);
      if LexLess(m, x) {
        assert IsLeast(m, s);
      } else {
        assert m != x;
        LexTotal(m, x);
        forall y | y in s && y != x
          ensures LexLess(x, y)
        {
          if y != m {
            LexTransitive(x, m, y);
          }
        }
        assert IsLeast(x, s);
      }
    }
  }

  /** The first element of a set is unique. */
  lemma LeastUnique(m: string, n: string, s: set<string>)
    requires IsLeast(m, s) && IsLeast(n, s)
    ensures m == n
  {
    if m != n {
      assert LexLess(m, n) && LexLess(n, m);
      LexTransitive(m, n, m);
      LexIrreflexive(m);
    }
  }

  /** The first element of a non-empty set. */
  ghost function Least(s: set<string>): (m: string)
    requires s != {}
    ensures IsLeast(m, s)
  {
    HasLeastString(s);
    var m :| IsLeast(m, s); m
  }

  /** The elements of a set in std::sort's ascending order. */
  ghost function SortedStrings(s: set<string>): (r: seq<string>)
    ensures forall x :: x in r <==> x in s
    ensures |r| == |s|
    decreases |s|
  {
    if s == {} then [] else [Least(s)] + SortedStrings(s - {Least(s)})
  }

  /** SortedStrings is ascending. */
  lemma {:induction false} SortedStringsAscending(s: set<string>)
    ensures forall i, j :: 0 <= i < j < |SortedStrings(s)| ==> LexLess(SortedStrings(s)[i], SortedStrings(s)[j])
    decreases |s|
  {
    if s != {} {
      var m := Least(s);
      var t := SortedStrings(s - {m});
      SortedStringsAscending(s - {m});
      assert SortedStrings(s) == [m] + t;
      forall x | x in t
        ensures LexLess(m, x)
      {
        assert x in s && x != m;
      }
      ConsAscending(m, t);
    }
  }

  /** A string below every element of an ascending sequence can be put in front of it. */
  lemma ConsAscending(m: string, t: seq<string>)
    requires forall i, j :: 0 <= i < j < |t| ==> LexLess(t[i], t[j])
    requires forall x :: x in t ==> LexLess(m, x)
    ensures forall i, j :: 0 <= i < j < |[m] + t| ==> LexLess(([m] + t)[i], ([m] + t)[j])
  {
    var r := [m] + t;
    forall i, j | 0 <= i < j < |r|
      ensures LexLess(r[i], r[j])
    {
      assert r[j] == t[j - 1];
      if i > 0 {
        assert r[i] == t[i - 1];
      } else {
        assert t[j - 1] in t;
      }
    }
  }

  /** Taking the first element off the set appends it to the sorted prefix. */
  lemma SortedStep(r: seq<string>, todo: set<string>, m: string)
    requires IsLeast(m, todo)
    ensures r + SortedStrings(todo) == (r + [m]) + SortedStrings(todo - {m})
  {
    LeastUnique(m, Least(todo), todo);
    assert SortedStrings(todo) == [m] + SortedStrings(todo - {m});
  }

  /** The vector of a set's elements after std::sort: ascending. */
  method SortStrings(s: set<string>) returns (r: seq<string>)
    ensures r == SortedStrings(s)
  {
    r := [];
    var todo := s;
    while todo != {}
      invariant r + SortedStrings(todo) == SortedStrings(s)
      decreases |todo|
    {
      HasLeastString(todo);
      var m :| IsLeast(m, todo);
      SortedStep(r, todo, m);
      r := r + [m];
      todo := todo - {m};
    }
  }
}
