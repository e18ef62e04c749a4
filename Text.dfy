/** The Python string operations the inventory script relies on, restricted to
    ASCII where Python is Unicode-aware: `strip()`, `split(sep)`, `split()`,
    `splitlines()`, the substring test `in`, `lower()`, `upper()`, `isdigit()`
    and the `int()`/f-string round trip of a decimal. The searches and `split(sep)`
    walk an index over the one string they are given; `splitlines()` and `split()`
    read the first line or word and recurse on the text after it, and `Join`,
    `Remove` and the decimal reading recurse on slices. */
module Text {

  /** Slicing off a prefix of `a + b` that lies within `a`. */
  lemma DropAppend<T>(a: seq<T>, b: seq<T>, k: nat)
    requires k <= |a|
    ensures (a + b)[k..] == a[k..] + b && (a + b)[..k] == a[..k]
  {
  }

  /** Concatenation is associative. */
  lemma AppendAssoc<T>(x: seq<T>, y: seq<T>, z: seq<T>)
    ensures (x + y) + z == x + (y + z)
  {
  }

  /** Appending a non-empty `b` is appending all of it but its last element, then that. */
  lemma AppendLast<T>(a: seq<T>, b: seq<T>)
    requires b != []
    ensures b == b[..|b| - 1] + [b[|b| - 1]]
    ensures a + b == (a + b[..|b| - 1]) + [b[|b| - 1]]
  {
  }

  /** The last element of `a + b` is the last of a non-empty `b`. */
  lemma LastOfAppend<T>(a: seq<T>, b: seq<T>)
    requires b != []
    ensures (a + b)[|a + b| - 1] == b[|b| - 1]
  {
  }

  /** A slice inside the second part of a concatenation. */
  lemma SliceShift<T>(p: seq<T>, s: seq<T>, a: nat, b: nat)
    requires a <= b <= |s|
    ensures (p + s)[|p| + a..|p| + b] == s[a..b]
  {
  }

  /** A suffix inside the second part of a concatenation. */
  lemma DropShift<T>(p: seq<T>, s: seq<T>, b: nat)
    requires b <= |s|
    ensures (p + s)[|p| + b..] == s[b..]
  {
  }

  /** A suffix is cut into the piece before position `k`, `s[k]`, and the rest. */
  lemma SliceAround<T>(s: seq<T>, j: nat, k: nat)
    requires j <= k < |s|
    ensures s[j..] == s[j..k] + [s[k]] + s[k + 1..]
  {
  }

  /** The first `i + 1` elements are the first `i` and then `s[i]`. */
  lemma TakeSnoc<T>(s: seq<T>, i: nat)
    requires i < |s|
    ensures s[..i + 1] == s[..i] + [s[i]]
  {
  }

  // ----- finding a character -----------------------------------------------

  /** Index of the first `c` in `s`, or `|s|` (Python's `str.find`, with `|s|` for -1). */
  function IndexOf(s: string, c: char): (k: nat)
    ensures k <= |s|
    ensures k < |s| ==> s[k] == c
    ensures forall i :: 0 <= i < k ==> s[i] != c
    ensures k == |s| <==> c !in s
  {
    IndexFrom(s, c, 0)
  }

  /** Index of the first `c` at or after `j`, or `|s|`. */
  function IndexFrom(s: string, c: char, j: nat): (k: nat)
    requires j <= |s|
    ensures j <= k <= |s|
    ensures k < |s| ==> s[k] == c
    ensures forall i :: j <= i < k ==> s[i] != c
    decreases |s| - j
  {
    if j == |s| then j else if s[j] == c then j else IndexFrom(s, c, j + 1)
  }

  /** The first `c` at or after `j` is at `k` when `s[k]` is `c` (or `k` is the end)
      and nothing in between is. */
  lemma IndexFromUnique(s: string, c: char, j: nat, k: nat)
    requires j <= k <= |s| && (k < |s| ==> s[k] == c)
    requires forall i :: j <= i < k ==> s[i] != c
    ensures IndexFrom(s, c, j) == k
  {
  }

  /** The first `c` is at `k` when `s[k]` is `c` and nothing before it is. */
  lemma IndexOfUnique(s: string, c: char, k: nat)
    requires k <= |s| && (k < |s| ==> s[k] == c)
    requires forall i :: 0 <= i < k ==> s[i] != c
    ensures IndexOf(s, c) == k
  {
    IndexFromUnique(s, c, 0, k);
  }

  // ----- whitespace and strip() -----------------------------------------

  /** Python's `str.isspace()` on ASCII: the space, the controls \t \n \v \f \r
      and the information separators \x1c-\x1f. */
  predicate IsSpace(c: char) {
    c == ' ' || '\t' <= c <= '\r' || '\U{1c}' <= c <= '\U{1f}'
  }

  predicate AllSpace(s: string) {
    forall i :: 0 <= i < |s| ==> IsSpace(s[i])
  }

  /** Index of the first non-whitespace character at or after `j`, or `|s|`. */
  function SkipSpace(s: string, j: nat): (k: nat)
    requires j <= |s|
    ensures j <= k <= |s|
    ensures k < |s| ==> !IsSpace(s[k])
    ensures forall i :: j <= i < k ==> IsSpace(s[i])
    decreases |s| - j
  {
    if j == |s| || !IsSpace(s[j]) then j else SkipSpace(s, j + 1)
  }

  /** Index just past the last non-whitespace character of `s[lo..j]`, or `lo`. */
  function BackSpace(s: string, lo: nat, j: nat): (k: nat)
    requires lo <= j <= |s|
    ensures lo <= k <= j
    ensures k > lo ==> !IsSpace(s[k - 1])
    ensures forall i :: k <= i < j ==> IsSpace(s[i])
    decreases j
  {
    if j == lo || !IsSpace(s[j - 1]) then j else BackSpace(s, lo, j - 1)
  }

  /** Python's `str.strip()` with no argument: the text between the leading and
      the trailing whitespace. */
  function Strip(s: string): (r: string)
    ensures |r| <= |s|
    ensures r == [] <==> AllSpace(s)
    ensures r != [] ==> !IsSpace(r[0]) && !IsSpace(r[|r| - 1])
  {
    var a := SkipSpace(s, 0);
    var b := BackSpace(s, a, |s|);
    assert a < |s| ==> a < b;
    s[a..b]
  }

  /** `strip()` only removes characters: a character absent from the text is absent
      from its stripped form. */
  lemma StripWithin(s: string, c: char)
    requires c !in s
    ensures c !in Strip(s)
  {
    var a := SkipSpace(s, 0);
    var b := BackSpace(s, a, |s|);
    assert forall i :: 0 <= i < b - a ==> s[a..b][i] == s[a + i];
  }

  /** `strip()` gives back exactly the text between whitespace padding on both sides. */
  lemma StripPadded(p: string, t: string, q: string)
    requires AllSpace(p) && AllSpace(q)
    requires t != [] ==> !IsSpace(t[0]) && !IsSpace(t[|t| - 1])
    ensures Strip(p + t + q) == t
  {
    var s := p + t + q;
    if t == [] {
      assert AllSpace(s) by {
        forall i | 0 <= i < |s| ensures IsSpace(s[i]) {
          if i < |p| { assert s[i] == p[i]; } else { assert s[i] == q[i - |p|]; }
        }
      }
    } else {
      var a, b := |p|, |p| + |t|;
      assert forall i :: 0 <= i < a ==> s[i] == p[i];
      assert s[a] == t[0];
      assert SkipSpace(s, 0) == a;
      assert forall i :: b <= i < |s| ==> s[i] == q[i - b];
      assert s[b - 1] == t[|t| - 1];
      assert BackSpace(s, a, |s|) == b;
      assert s[a..b] == t;
    }
  }

  // ----- substring test ----------------------------------------------------

  /** Python's substring test `p in s`. */
  predicate Contains(s: string, p: string) {
    ContainsFrom(s, p, 0)
  }

  /** `p` occurs in `s` at an offset of at least `i`. */
  predicate ContainsFrom(s: string, p: string, i: nat)
    decreases |s| - i
  {
    i + |p| <= |s| && (OccursAt(s, p, i) || ContainsFrom(s, p, i + 1))
  }

  predicate OccursAt(s: string, p: string, i: nat) {
    i + |p| <= |s| && s[i..i + |p|] == p
  }

  lemma {:induction false} ContainsFromOccurrence(s: string, p: string, j: nat, i: nat)
    requires j <= i && OccursAt(s, p, i)
    ensures ContainsFrom(s, p, j)
    decreases i - j
  {
    if j < i {
      ContainsFromOccurrence(s, p, j + 1, i);
    }
  }

  lemma {:induction false} OccurrenceFromContains(s: string, p: string, j: nat) returns (i: nat)
    requires ContainsFrom(s, p, j)
    ensures j <= i && OccursAt(s, p, i)
    decreases |s| - j
  {
    if OccursAt(s, p, j) {
      i := j;
    } else {
      i := OccurrenceFromContains(s, p, j + 1);
    }
  }

  /** `Contains` is the substring relation: `p` occurs at some offset of `s`. */
  lemma ContainsIff(s: string, p: string)
    ensures Contains(s, p) <==> exists i: nat :: OccursAt(s, p, i)
  {
    if Contains(s, p) {
      var i := OccurrenceFromContains(s, p, 0);
    }
    if i: nat :| OccursAt(s, p, i) {
      ContainsFromOccurrence(s, p, 0, i);
    }
  }

  /** A line containing a key contains every character of the key. */
  lemma ContainsChar(s: string, p: string, c: char)
    requires Contains(s, p) && c in p
    ensures c in s
  {
    var i := OccurrenceFromContains(s, p, 0);
    var j :| 0 <= j < |p| && p[j] == c;
    assert s[i + j] == s[i..i + |p|][j];
  }

  // ----- split(sep) and its inverse ---------------------------------------

  /** Python's `s.split(c)` for a one-character separator. */
  function Split(s: string, c: char): (parts: seq<string>)
    ensures |parts| >= 1
    ensures |parts| >= 2 <==> c in s
  {
    SplitFrom(s, c, 0)
  }

  /** The pieces of `s[j..]` between the separators. */
  function SplitFrom(s: string, c: char, j: nat): (parts: seq<string>)
    requires j <= |s|
    ensures |parts| >= 1
    ensures |parts| >= 2 <==> IndexFrom(s, c, j) < |s|
    decreases |s| - j
  {
    var k := IndexFrom(s, c, j);
    if k == |s| then [s[j..]] else [s[j..k]] + SplitFrom(s, c, k + 1)
  }

  /** One step of `split(c)`: the piece up to the separator at `k`, then the rest. */
  lemma SplitStep(s: string, c: char, j: nat, k: nat)
    requires j <= |s| && IndexFrom(s, c, j) == k
    ensures k == |s| ==> SplitFrom(s, c, j) == [s[j..]]
    ensures k < |s| ==> SplitFrom(s, c, j) == [s[j..k]] + SplitFrom(s, c, k + 1)
  {
  }

  /** No piece of a split holds the separator. */
  lemma {:induction false} SplitPieces(s: string, c: char, j: nat)
    requires j <= |s|
    ensures forall t :: 0 <= t < |SplitFrom(s, c, j)| ==> c !in SplitFrom(s, c, j)[t]
    decreases |s| - j
  {
    var k := IndexFrom(s, c, j);
    if k < |s| {
      SplitPieces(s, c, k + 1);
    }
  }

  /** Python's `text.split('\n')`: the lines of a command's output, with an empty
      last line when the output ends in a newline. */
  function Lines(text: string): (ls: seq<string>)
    ensures |ls| >= 1 && Join(ls, '\n') == text
  {
    JoinSplit(text, '\n');
    Split(text, '\n')
  }

  /** Python's `c.join(parts)`. */
  function Join(parts: seq<string>, c: char): string
    requires |parts| >= 1
  {
    if |parts| == 1 then parts[0] else parts[0] + [c] + Join(parts[1..], c)
  }

  /** Joining the pieces of a split restores the string. */
  lemma JoinSplit(s: string, c: char)
    ensures Join(Split(s, c), c) == s
  {
    JoinSplitFrom(s, c, 0);
  }

  lemma {:induction false} JoinSplitFrom(s: string, c: char, j: nat)
    requires j <= |s|
    ensures Join(SplitFrom(s, c, j), c) == s[j..]
    decreases |s| - j
  {
    var k := IndexFrom(s, c, j);
    SplitStep(s, c, j, k);
    if k < |s| {
      var rest := SplitFrom(s, c, k + 1);
      assert Join(rest, c) == s[k + 1..] by {
        JoinSplitFrom(s, c, k + 1);
      }
      JoinCons(s[j..k], rest, c);
      SliceAround(s, j, k);
    }
  }

  /** Joining behind a first piece puts the separator after it. */
  lemma JoinCons(a: string, rest: seq<string>, c: char)
    requires |rest| >= 1
    ensures Join([a] + rest, c) == a + [c] + Join(rest, c)
  {
    assert ([a] + rest)[1..] == rest;
  }

  /** Splitting a join of separator-free pieces restores the pieces. */
  lemma SplitJoin(parts: seq<string>, c: char)
    requires |parts| >= 1
    requires forall j :: 0 <= j < |parts| ==> c !in parts[j]
    ensures Split(Join(parts, c), c) == parts
  {
    var s := Join(parts, c);
    assert s[0..] == s;
    SplitJoinFrom(s, c, 0, parts);
  }

  /** The pieces of `s[j..]` are `parts` when `s[j..]` is their join. */
  lemma {:induction false} SplitJoinFrom(s: string, c: char, j: nat, parts: seq<string>)
    requires j <= |s| && |parts| >= 1 && s[j..] == Join(parts, c)
    requires forall t :: 0 <= t < |parts| ==> c !in parts[t]
    ensures SplitFrom(s, c, j) == parts
    decreases |parts|
  {
    var a := parts[0];
    if |parts| == 1 {
      assert IndexFrom(s, c, j) == |s| by {
        assert forall i :: j <= i < |s| ==> s[i] == a[i - j];
        IndexFromUnique(s, c, j, |s|);
      }
    } else {
      var k := j + |a|;
      JoinFirstPiece(s, c, j, parts);
      SplitJoinFrom(s, c, k + 1, parts[1..]);
      assert SplitFrom(s, c, j) == [s[j..k]] + SplitFrom(s, c, k + 1);
    }
  }

  /** Where `s[j..]` joins two or more pieces, the first separator after `j`
      ends the first piece and the text after it joins the rest. */
  lemma JoinFirstPiece(s: string, c: char, j: nat, parts: seq<string>)
    requires j <= |s| && |parts| >= 2 && s[j..] == Join(parts, c) && c !in parts[0]
    ensures IndexFrom(s, c, j) == j + |parts[0]|
    ensures s[j..j + |parts[0]|] == parts[0]
    ensures s[j + |parts[0]| + 1..] == Join(parts[1..], c)
  {
    var a := parts[0];
    var rest := Join(parts[1..], c);
    var k := j + |a|;
    assert s[j..] == a + [c] + rest;
    assert IndexFrom(s, c, j) == k by {
      assert forall i :: j <= i < k ==> s[i] == a[i - j];
      assert s[k] == c;
      IndexFromUnique(s, c, j, k);
    }
    assert s[j..k] == a by {
      assert s[j..k] == s[j..][..|a|];
    }
    assert s[k + 1..] == rest by {
      assert s[k + 1..] == s[j..][|a| + 1..];
    }
  }

  /** Python's `s.split(c)[1]` is the text between the first `c` (at `i`) and the
      second one (at `j`), or the end of `s` when there is no second one. */
  lemma SplitSecond(s: string, c: char, i: nat, j: nat)
    requires i < j <= |s| && s[i] == c && (j < |s| ==> s[j] == c)
    requires forall t :: 0 <= t < j && t != i ==> s[t] != c
    ensures |Split(s, c)| >= 2 && Split(s, c)[1] == s[i + 1..j]
  {
    IndexFromUnique(s, c, 0, i);
    IndexFromUnique(s, c, i + 1, j);
    assert Split(s, c) == [s[0..i]] + SplitFrom(s, c, i + 1);
    assert SplitFrom(s, c, i + 1)[0] == s[i + 1..j];
  }

  // ----- case -------------------------------------------------------------

  function LowerChar(c: char): char {
    if 'A' <= c <= 'Z' then (c as int + 32) as char else c
  }

  function UpperChar(c: char): char {
    if 'a' <= c <= 'z' then (c as int - 32) as char else c
  }

  /** Python's `str.lower()` on ASCII letters. */
  function Lower(s: string): (r: string)
    ensures |r| == |s|
  {
    seq(|s|, i requires 0 <= i < |s| => LowerChar(s[i]))
  }

  /** Python's `str.upper()` on ASCII letters. */
  function Upper(s: string): (r: string)
    ensures |r| == |s|
  {
    seq(|s|, i requires 0 <= i < |s| => UpperChar(s[i]))
  }

  /** `lower()` turns each upper-case letter into its lower-case letter and keeps
      every other character, so no upper-case letter is left; `upper()` the other
      way round. */
  lemma CaseMaps(s: string)
    ensures forall i :: 0 <= i < |s| ==>
      if 'A' <= s[i] <= 'Z' then Lower(s)[i] as int == s[i] as int + 32 else Lower(s)[i] == s[i]
    ensures forall i :: 0 <= i < |s| ==> !('A' <= Lower(s)[i] <= 'Z')
    ensures forall i :: 0 <= i < |s| ==>
      if 'a' <= s[i] <= 'z' then Upper(s)[i] as int == s[i] as int - 32 else Upper(s)[i] == s[i]
    ensures forall i :: 0 <= i < |s| ==> !('a' <= Upper(s)[i] <= 'z')
  {
  }

  /** Case conversion forgets the case it starts from: lower-casing an upper-cased
      text is lower-casing the text, and the other way round. */
  lemma CaseBlind(s: string)
    ensures Lower(Upper(s)) == Lower(s)
    ensures Upper(Lower(s)) == Upper(s)
  {
    assert forall i :: 0 <= i < |s| ==> Lower(Upper(s))[i] == Lower(s)[i];
    assert forall i :: 0 <= i < |s| ==> Upper(Lower(s))[i] == Upper(s)[i];
  }

  // ----- digits and decimal numbers ----------------------------------------

  /** Python's `str.isdigit()` on one ASCII character. */
  predicate IsDigit(c: char) {
    '0' <= c <= '9'
  }

  predicate Digits(s: string) {
    forall i :: 0 <= i < |s| ==> IsDigit(s[i])
  }

  /** Python's `str.isdigit()` on a string: non-empty and all digits. */
  predicate IsDigitString(s: string) {
    s != [] && Digits(s)
  }

  function DigitValue(c: char): (d: nat)
    requires IsDigit(c)
    ensures d < 10
  {
    c as int - '0' as int
  }

  function DigitChar(d: nat): (c: char)
    requires d < 10
    ensures IsDigit(c) && DigitValue(c) == d
  {
    ('0' as int + d) as char
  }

  /** The value of a string of decimal digits, as Python's `int()` reads it. */
  function ParseDigits(s: string): nat
    requires Digits(s)
  {
    if s == [] then 0 else ParseDigits(s[..|s| - 1]) * 10 + DigitValue(s[|s| - 1])
  }

  /** The decimal text of `n`, as a Python f-string writes it. */
  function ShowNat(n: nat): (r: string)
    ensures IsDigitString(r)
    ensures |r| > 1 ==> r[0] != '0'
  {
    if n < 10 then [DigitChar(n)] else ShowNat(n / 10) + [DigitChar(n % 10)]
  }

  /** Reading back the decimal text of a number gives the number. */
  lemma {:induction false} ParseShow(n: nat)
    ensures ParseDigits(ShowNat(n)) == n
  {
    if n >= 10 {
      var s := ShowNat(n);
      assert s[..|s| - 1] == ShowNat(n / 10);
      ParseShow(n / 10);
    }
  }

  lemma {:induction false} ParseLeadingNonZero(s: string)
    requires IsDigitString(s) && s[0] != '0'
    ensures ParseDigits(s) >= 1
  {
    if |s| > 1 {
      ParseLeadingNonZero(s[..|s| - 1]);
    }
  }

  /** A leading zero does not change the value read (`int("007")` is 7). */
  lemma {:induction false} ParseLeadingZero(s: string)
    requires Digits(s)
    ensures ParseDigits("0" + s) == ParseDigits(s)
    decreases |s|
  {
    var z := "0" + s;
    if s != [] {
      var init := s[..|s| - 1];
      assert z[..|z| - 1] == "0" + init && z[|z| - 1] == s[|s| - 1];
      ParseLeadingZero(init);
    } else {
      assert z[..|z| - 1] == [];
    }
  }

  /** A digit string without a superfluous leading zero is the decimal text of its value;
      with one, the f-string drops it (`"007"` comes back as `"7"`). */
  lemma {:induction false} ShowParse(s: string)
    requires IsDigitString(s) && (|s| > 1 ==> s[0] != '0')
    ensures ShowNat(ParseDigits(s)) == s
  {
    var init := s[..|s| - 1];
    var d := DigitValue(s[|s| - 1]);
    if init == [] {
      assert s == [s[0]];
    } else {
      ParseLeadingNonZero(init);
      var n := ParseDigits(s);
      assert n == ParseDigits(init) * 10 + d;
      assert n / 10 == ParseDigits(init) && n % 10 == d;
      ShowParse(init);
      assert s == init + [s[|s| - 1]];
    }
  }

  // ----- splitlines() and split() --------------------------------------------

  /** The characters Python's `str.splitlines()` treats as line boundaries. */
  predicate IsLineBoundary(c: char) {
    '\n' <= c <= '\r' || '\U{1c}' <= c <= '\U{1e}' || c == '\U{85}' || c == '\U{2028}' || c == '\U{2029}'
  }

  predicate NoBoundary(line: string) {
    forall i :: 0 <= i < |line| ==> !IsLineBoundary(line[i])
  }

  /** Index of the first line boundary at or after `j`, or `|s|`. */
  function NextBoundary(s: string, j: nat): (k: nat)
    requires j <= |s|
    ensures j <= k <= |s|
    ensures k < |s| ==> IsLineBoundary(s[k])
    ensures forall i :: j <= i < k ==> !IsLineBoundary(s[i])
    decreases |s| - j
  {
    if j == |s| || IsLineBoundary(s[j]) then j else NextBoundary(s, j + 1)
  }

  /** The first boundary at or after `j` is at `k` when `s[k]` is one and nothing
      before it is. */
  lemma NextBoundaryUnique(s: string, j: nat, k: nat)
    requires j <= k <= |s| && (k < |s| ==> IsLineBoundary(s[k]))
    requires forall i :: j <= i < k ==> !IsLineBoundary(s[i])
    ensures NextBoundary(s, j) == k
  {
  }

  /** Where the next line starts after the boundary at `k`: "\r\n" is one boundary. */
  function LineEnd(s: string, k: nat): (n: nat)
    requires k < |s|
    ensures k < n <= |s|
    ensures n == k + 2 <==> s[k] == '\r' && k + 1 < |s| && s[k + 1] == '\n'
  {
    if s[k] == '\r' && k + 1 < |s| && s[k + 1] == '\n' then k + 2 else k + 1
  }

  /** Python's `str.splitlines()`: the text up to the first boundary is a line, and
      the lines of the text after that boundary follow; a final boundary does not
      start an empty last line. */
  function SplitLines(s: string): (lines: seq<string>)
    ensures s == [] <==> lines == []
    decreases |s|
  {
    if s == [] then []
    else
      var k := NextBoundary(s, 0);
      if k == |s| then [s] else [s[..k]] + SplitLines(s[LineEnd(s, k)..])
  }

  /** No line holds a line boundary. */
  lemma {:induction false} SplitLinesPieces(s: string)
    ensures forall t :: 0 <= t < |SplitLines(s)| ==> NoBoundary(SplitLines(s)[t])
    decreases |s|
  {
    if s != [] {
      var k := NextBoundary(s, 0);
      if k < |s| {
        SplitLinesPieces(s[LineEnd(s, k)..]);
        assert NoBoundary(s[..k]) by {
          assert forall i :: 0 <= i < k ==> s[..k][i] == s[i];
        }
      }
    }
  }

  /** A line ended by a boundary other than the "\r" of "\r\n", then the rest:
      `splitlines()` gives the line, then the lines of the rest. */
  lemma SplitLinesStep(a: string, b: char, s: string)
    requires NoBoundary(a) && IsLineBoundary(b)
    requires !(b == '\r' && s != [] && s[0] == '\n')
    ensures SplitLines(a + [b] + s) == [a] + SplitLines(s)
  {
    var x := a + [b] + s;
    assert NextBoundary(x, 0) == |a| by {
      assert forall i :: 0 <= i < |a| ==> x[i] == a[i];
      NextBoundaryUnique(x, 0, |a|);
    }
    assert LineEnd(x, |a|) == |a| + 1 by {
      assert x[|a|] == b && (|a| + 1 < |x| ==> x[|a| + 1] == s[0]);
    }
    assert x[..|a|] == a && x[|a| + 1..] == s;
  }

  /** A line ended by "\r\n", then the rest: the pair is one boundary. */
  lemma SplitLinesCrlf(a: string, s: string)
    requires NoBoundary(a)
    ensures SplitLines(a + "\r\n" + s) == [a] + SplitLines(s)
  {
    var x := a + "\r\n" + s;
    assert NextBoundary(x, 0) == |a| by {
      assert forall i :: 0 <= i < |a| ==> x[i] == a[i];
      NextBoundaryUnique(x, 0, |a|);
    }
    assert LineEnd(x, |a|) == |a| + 2 by {
      assert x[|a|] == '\r' && x[|a| + 1] == '\n';
    }
    assert x[..|a|] == a && x[|a| + 2..] == s;
  }

  /** A last line without a final boundary is read whole. */
  lemma SplitLinesLast(a: string)
    requires a != [] && NoBoundary(a)
    ensures SplitLines(a) == [a]
  {
    NextBoundaryUnique(a, 0, |a|);
  }

  /** A final boundary does not start an empty last line. */
  lemma SplitLinesFinal(a: string, b: char)
    requires NoBoundary(a) && IsLineBoundary(b)
    ensures SplitLines(a + [b]) == [a]
  {
    SplitLinesStep(a, b, []);
    assert a + [b] + [] == a + [b];
  }

  /** Lines without a boundary, the last one non-empty, joined by "\n" are read back
      by `splitlines()` as exactly those lines. */
  lemma {:induction false} SplitLinesJoin(ls: seq<string>)
    requires |ls| >= 1 && ls[|ls| - 1] != []
    requires forall t :: 0 <= t < |ls| ==> NoBoundary(ls[t])
    ensures SplitLines(Join(ls, '\n')) == ls
    decreases |ls|
  {
    if |ls| == 1 {
      SplitLinesLast(ls[0]);
    } else {
      var rest := Join(ls[1..], '\n');
      SplitLinesJoin(ls[1..]);
      SplitLinesStep(ls[0], '\n', rest);
      assert ls == [ls[0]] + ls[1..];
    }
  }

  /** Lines without a boundary, each ended by "\n" as commands print them, are read
      back by `splitlines()` as exactly those lines, an empty one included. */
  lemma {:induction false} SplitLinesJoinEnded(ls: seq<string>)
    requires |ls| >= 1
    requires forall t :: 0 <= t < |ls| ==> NoBoundary(ls[t])
    ensures SplitLines(Join(ls, '\n') + "\n") == ls
    decreases |ls|
  {
    if |ls| == 1 {
      SplitLinesFinal(ls[0], '\n');
    } else {
      var rest := Join(ls[1..], '\n');
      assert Join(ls, '\n') + "\n" == ls[0] + ['\n'] + (rest + "\n") by {
        AppendAssoc(ls[0] + ['\n'], rest, "\n");
      }
      SplitLinesJoinEnded(ls[1..]);
      SplitLinesStep(ls[0], '\n', rest + "\n");
      assert ls == [ls[0]] + ls[1..];
    }
  }

  /** On a text whose only line boundaries are "\n" and which does not end in one,
      `splitlines()` is `split('\n')`. */
  lemma SplitLinesAsSplit(s: string)
    requires s != [] && !IsLineBoundary(s[|s| - 1])
    requires forall i :: 0 <= i < |s| && IsLineBoundary(s[i]) ==> s[i] == '\n'
    ensures SplitLines(s) == Split(s, '\n')
  {
    SplitLinesAsSplitFrom(s);
  }

  lemma SplitLinesAsSplitFrom(s: string)
    requires s != [] && !IsLineBoundary(s[|s| - 1])
    requires forall i :: 0 <= i < |s| && IsLineBoundary(s[i]) ==> s[i] == '\n'
    ensures SplitLines(s) == SplitFrom(s, '\n', 0)
  {
    var ps := SplitFrom(s, '\n', 0);
    assert Join(ps, '\n') == s by {
      JoinSplit(s, '\n');
    }
    JoinLastPiece(ps, '\n');
    assert forall t :: 0 <= t < |ps| ==> NoBoundary(ps[t]) by {
      SplitNoBoundary(s, 0);
    }
    SplitLinesJoin(ps);
  }

  /** Splitting at "\n" a text whose only boundaries are "\n" leaves no boundary in
      any piece. */
  lemma {:induction false} SplitNoBoundary(s: string, j: nat)
    requires j <= |s|
    requires forall i :: 0 <= i < |s| && IsLineBoundary(s[i]) ==> s[i] == '\n'
    ensures forall t :: 0 <= t < |SplitFrom(s, '\n', j)| ==> NoBoundary(SplitFrom(s, '\n', j)[t])
    decreases |s| - j
  {
    var k := IndexFrom(s, '\n', j);
    SplitStep(s, '\n', j, k);
    assert NoBoundary(s[j..k]) by {
      assert forall i :: 0 <= i < k - j ==> s[j..k][i] == s[j + i];
    }
    if k < |s| {
      SplitNoBoundary(s, k + 1);
    } else {
      assert s[j..] == s[j..k];
    }
  }

  /** A join that does not end in the separator ends with a non-empty last piece. */
  lemma {:induction false} JoinLastPiece(parts: seq<string>, c: char)
    requires |parts| >= 1
    requires var s := Join(parts, c); s != [] && s[|s| - 1] != c
    ensures parts[|parts| - 1] != []
    decreases |parts|
  {
    if |parts| > 1 {
      var rest := Join(parts[1..], c);
      var s := parts[0] + [c] + rest;
      assert Join(parts, c) == s;
      if rest != [] {
        assert s[|s| - 1] == rest[|rest| - 1];
        JoinLastPiece(parts[1..], c);
      }
    }
  }

  /** Index of the first whitespace character at or after `j`, or `|s|`. */
  function NextSpace(s: string, j: nat): (k: nat)
    requires j <= |s|
    ensures j <= k <= |s|
    ensures k < |s| ==> IsSpace(s[k])
    ensures forall i :: j <= i < k ==> !IsSpace(s[i])
    decreases |s| - j
  {
    if j == |s| || IsSpace(s[j]) then j else NextSpace(s, j + 1)
  }

  /** A non-empty run of non-whitespace characters. */
  predicate IsWord(w: string) {
    w != [] && forall i :: 0 <= i < |w| ==> !IsSpace(w[i])
  }

  /** Python's `str.split()` with no argument: after the leading whitespace, the run
      of non-whitespace up to the next whitespace is a word, and the words of the
      text from there follow. */
  function Words(s: string): (ws: seq<string>)
    ensures forall t :: 0 <= t < |ws| ==> IsWord(ws[t])
    decreases |s|
  {
    var a := SkipSpace(s, 0);
    if a == |s| then []
    else
      var b := NextSpace(s, a);
      assert IsWord(s[a..b]) by {
        assert forall i :: 0 <= i < b - a ==> s[a..b][i] == s[a + i];
      }
      [s[a..b]] + Words(s[b..])
  }

  /** The first non-whitespace at or after `j` is at `k` when nothing before it is
      non-whitespace. */
  lemma SkipSpaceUnique(s: string, j: nat, k: nat)
    requires j <= k <= |s| && (k < |s| ==> !IsSpace(s[k]))
    requires forall i :: j <= i < k ==> IsSpace(s[i])
    ensures SkipSpace(s, j) == k
  {
  }

  /** The first whitespace at or after `j` is at `k` when nothing before it is
      whitespace. */
  lemma NextSpaceUnique(s: string, j: nat, k: nat)
    requires j <= k <= |s| && (k < |s| ==> IsSpace(s[k]))
    requires forall i :: j <= i < k ==> !IsSpace(s[i])
    ensures NextSpace(s, j) == k
  {
  }

  /** One step of `split()`: the first word runs from `a` to `b`. */
  lemma WordsStep(x: string, a: nat, b: nat)
    requires a == SkipSpace(x, 0) < |x| && b == NextSpace(x, a)
    ensures Words(x) == [x[a..b]] + Words(x[b..])
  {
  }

  lemma SkipSpaceShift(p: string, s: string, j: nat)
    requires j <= |s|
    ensures SkipSpace(p + s, |p| + j) == |p| + SkipSpace(s, j)
  {
    var x, a := p + s, SkipSpace(s, j);
    assert forall i :: |p| + j <= i < |p| + a ==> x[i] == s[i - |p|];
    assert a < |s| ==> x[|p| + a] == s[a];
    SkipSpaceUnique(x, |p| + j, |p| + a);
  }

  lemma NextSpaceShift(p: string, s: string, j: nat)
    requires j <= |s|
    ensures NextSpace(p + s, |p| + j) == |p| + NextSpace(s, j)
  {
    var x, b := p + s, NextSpace(s, j);
    assert forall i :: |p| + j <= i < |p| + b ==> x[i] == s[i - |p|];
    assert b < |s| ==> x[|p| + b] == s[b];
    NextSpaceUnique(x, |p| + j, |p| + b);
  }

  /** Whitespace in front moves the first word by its length. */
  lemma SkipSpacePrefix(p: string, s: string)
    requires AllSpace(p)
    ensures SkipSpace(p + s, 0) == |p| + SkipSpace(s, 0)
  {
    var x := p + s;
    var a := SkipSpace(x, |p|);
    assert forall i :: 0 <= i < |p| ==> x[i] == p[i];
    SkipSpaceUnique(x, 0, a);
    SkipSpaceShift(p, s, 0);
  }

  /** Leading whitespace does not matter to `split()`. */
  lemma SpaceThenWords(p: string, s: string)
    requires AllSpace(p)
    ensures Words(p + s) == Words(s)
  {
    var x, a := p + s, SkipSpace(s, 0);
    SkipSpacePrefix(p, s);
    if a < |s| {
      var b := NextSpace(s, a);
      NextSpaceShift(p, s, a);
      SliceShift(p, s, a, b);
      DropShift(p, s, b);
      WordsAgree(x, |p| + a, |p| + b, s, a, b);
    } else {
      assert Words(x) == [];
    }
  }

  /** Two texts whose first words agree and whose rests after them agree have the
      same words. */
  lemma WordsAgree(x: string, c: nat, d: nat, s: string, a: nat, b: nat)
    requires c == SkipSpace(x, 0) < |x| && d == NextSpace(x, c)
    requires a == SkipSpace(s, 0) < |s| && b == NextSpace(s, a)
    requires x[c..d] == s[a..b] && x[d..] == s[b..]
    ensures Words(x) == Words(s)
  {
    WordsStep(x, c, d);
    WordsStep(s, a, b);
  }

  /** A word followed by whitespace, then the rest: `split()` gives the word, then the
      words of the rest, however wide the gap. */
  lemma WordThenWords(w: string, p: string, s: string)
    requires IsWord(w) && p != [] && AllSpace(p)
    ensures Words(w + p + s) == [w] + Words(s)
  {
    var x := w + p + s;
    assert SkipSpace(x, 0) == 0 && NextSpace(x, 0) == |w| by {
      assert forall i :: 0 <= i < |w| ==> x[i] == w[i];
      assert x[|w|] == p[0];
      SkipSpaceUnique(x, 0, 0);
      NextSpaceUnique(x, 0, |w|);
    }
    assert x[0..|w|] == w && x[|w|..] == p + s;
    SpaceThenWords(p, s);
  }

  /** A single word is read whole. */
  lemma OneWord(w: string)
    requires IsWord(w)
    ensures Words(w) == [w]
  {
    SkipSpaceUnique(w, 0, 0);
    NextSpaceUnique(w, 0, |w|);
    assert w[0..|w|] == w && w[|w|..] == [];
  }

  /** Words joined by single spaces are read back by `split()` as exactly those
      words. */
  lemma {:induction false} WordsJoin(ws: seq<string>)
    requires |ws| >= 1
    requires forall t :: 0 <= t < |ws| ==> IsWord(ws[t])
    ensures Words(Join(ws, ' ')) == ws
    decreases |ws|
  {
    if |ws| == 1 {
      OneWord(ws[0]);
    } else {
      var rest := Join(ws[1..], ' ');
      WordsJoin(ws[1..]);
      WordThenWords(ws[0], " ", rest);
      assert ws == [ws[0]] + ws[1..];
    }
  }

  // ----- deleting a character ------------------------------------------------

  /** `s` with every `c` deleted (Python's `s.replace(c, "")`). */
  function Remove(s: string, c: char): (r: string)
    ensures c !in r
    ensures |r| <= |s|
  {
    if s == [] then [] else (if s[0] == c then [] else [s[0]]) + Remove(s[1..], c)
  }

  lemma {:induction false} RemoveConcat(a: string, b: string, c: char)
    ensures Remove(a + b, c) == Remove(a, c) + Remove(b, c)
  {
    if a == [] {
      assert a + b == b;
    } else {
      var head := if a[0] == c then [] else [a[0]];
      assert Remove(a + b, c) == head + Remove(a[1..] + b, c) by {
        assert (a + b)[0] == a[0];
        assert (a + b)[1..] == a[1..] + b;
      }
      RemoveConcat(a[1..], b, c);
      AppendAssoc(head, Remove(a[1..], c), Remove(b, c));
    }
  }

  lemma {:induction false} RemoveAbsent(s: string, c: char)
    requires c !in s
    ensures Remove(s, c) == s
  {
    if s != [] {
      RemoveAbsent(s[1..], c);
    }
  }
}
