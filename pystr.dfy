/**
 * Python string built-ins used by the car valuation code: `str.lower()`,
 * substring `in`, the ordering of `sorted` on strings (code point by code
 * point), and `str.split()` / `' '.join(...)`.
 */
module PyStr {

  /** `str.lower()` on one character (ASCII letters only). */
  function LowerChar(c: char): char {
    if 'A' <= c <= 'Z' then (c as int + 32) as char else c
  }

  function Lower(s: string): (r: string)
    ensures |r| == |s|
    ensures forall i :: 0 <= i < |s| ==> r[i] == LowerChar(s[i])
  {
    if s == [] then [] else [LowerChar(s[0])] + Lower(s[1..])
  }

  lemma {:induction false} LowerIdempotent(s: string)
    ensures Lower(Lower(s)) == Lower(s)
  {
    var l := Lower(s);
    assert forall i :: 0 <= i < |s| ==> Lower(l)[i] == l[i];
  }

  predicate StartsWith(s: string, p: string) {
    |p| <= |s| && s[..|p|] == p
  }

  /** `p in s` for strings: p occurs in s as a contiguous piece. */
  predicate Contains(s: string, p: string)
    decreases |s|
  {
    StartsWith(s, p) || (s != [] && Contains(s[1..], p))
  }

  /** p occurs in s starting at position i. */
  predicate OccursAt(s: string, p: string, i: int) {
    0 <= i <= |s| - |p| && s[i..i + |p|] == p
  }

  /** Contains finds exactly the positions where p occurs. */
  lemma {:induction false} ContainsIff(s: string, p: string)
    ensures Contains(s, p) <==> exists i :: OccursAt(s, p, i)
  {
    if StartsWith(s, p) {
      assert OccursAt(s, p, 0);
    }
    if s == [] {
      if exists i :: OccursAt(s, p, i) {
        var i :| OccursAt(s, p, i);
        assert s[..|p|] == p;
      }
    } else {
      ContainsIff(s[1..], p);
      if Contains(s[1..], p) {
        var i :| OccursAt(s[1..], p, i);
        assert s[i + 1..i + 1 + |p|] == s[1..][i..i + |p|];
        assert OccursAt(s, p, i + 1);
      }
      if StartsWith(s, p) {
        assert OccursAt(s, p, 0);
      }
      if exists j :: OccursAt(s, p, j) {
        var j :| OccursAt(s, p, j);
        if j > 0 {
          assert s[1..][j - 1..j - 1 + |p|] == s[j..j + |p|];
          assert OccursAt(s[1..], p, j - 1);
        }
      }
    }
  }

  /** The order Python uses to compare two strings. */
  predicate LexLess(a: string, b: string)
    decreases |a|
  {
    if a == [] then b != []
    else if b == [] then false
    else if a[0] != b[0] then a[0] < b[0]
    else LexLess(a[1..], b[1..])
  }

  lemma {:induction false} LexIrreflexive(a: string)
    ensures !LexLess(a, a)
  {
    if a != [] {
      LexIrreflexive(a[1..]);
    }
  }

  lemma {:induction false} LexTransitive(a: string, b: string, c: string)
    requires LexLess(a, b) && LexLess(b, c)
    ensures LexLess(a, c)
    decreases |a|
  {
    if a != [] && b != [] && c != [] && a[0] == b[0] == c[0] {
      LexTransitive(a[1..], b[1..], c[1..]);
    }
  }

  lemma {:induction false} LexTotal(a: string, b: string)
    ensures a == b || LexLess(a, b) || LexLess(b, a)
    decreases |a|
  {
    if a != [] && b != [] && a[0] == b[0] {
      LexTotal(a[1..], b[1..]);
      if a[1..] == b[1..] {
        assert a == [a[0]] + a[1..] && b == [b[0]] + b[1..];
      }
    }
  }

  lemma LexAsymmetric(a: string, b: string)
    requires LexLess(a, b)
    ensures !LexLess(b, a)
  {
    if LexLess(b, a) {
      LexTransitive(a, b, a);
      LexIrreflexive(a);
    }
  }

  /** Sorted ascending with no repeats: what `sorted(set)` returns. */
  predicate StrictlySorted(s: seq<string>) {
    forall i, j :: 0 <= i < j < |s| ==> LexLess(s[i], s[j])
  }

  /** Inserts x at its place in a strictly sorted list (nothing if present). */
  function {:induction false} InsertSorted(s: seq<string>, x: string): (r: seq<string>)
    requires StrictlySorted(s)
    ensures StrictlySorted(r)
    ensures forall y :: y in r <==> y in s || y == x
    ensures |r| == if x in s then |s| else |s| + 1
  {
    if s == [] then [x]
    else if x == s[0] then s
    else if LexLess(x, s[0]) then
      assert x !in s by {
        forall k | 0 <= k < |s| ensures s[k] != x {
          if k > 0 {
            LexAsymmetric(x, s[0]);
          }
        }
      }
      forall k | 0 < k < |s| ensures LexLess(x, s[k]) {
        LexTransitive(x, s[0], s[k]);
      }
      [x] + s
    else
      LexTotal(x, s[0]);
      var t := InsertSorted(s[1..], x);
      assert forall k :: 0 <= k < |t| ==> t[k] in s[1..] || t[k] == x;
      [s[0]] + t
  }

  /** A whitespace character as `str.split()` and the `\s` class see it. */
  predicate IsSpace(c: char) {
    || c == ' ' || '\t' <= c <= '\r' || '\U{1C}' <= c <= '\U{1F}'
    || c == '\U{85}' || c == '\U{A0}' || c == '\U{1680}'
    || '\U{2000}' <= c <= '\U{200A}' || c == '\U{2028}' || c == '\U{2029}'
    || c == '\U{202F}' || c == '\U{205F}' || c == '\U{3000}'
  }

  function DropSpaces(s: string): (r: string)
    ensures |r| <= |s|
    ensures r != [] ==> !IsSpace(r[0])
    ensures forall i :: 0 <= i < |s| - |r| ==> IsSpace(s[i])
  {
    if s != [] && IsSpace(s[0]) then DropSpaces(s[1..]) else s
  }

  /** What DropSpaces leaves is a suffix of its input. */
  lemma {:induction false} DropSpacesSuffix(s: string)
    ensures DropSpaces(s) == s[|s| - |DropSpaces(s)|..]
    decreases |s|
  {
    if s != [] && IsSpace(s[0]) {
      DropSpacesSuffix(s[1..]);
      assert s[1..][|s| - 1 - |DropSpaces(s[1..])|..] == s[|s| - |DropSpaces(s)|..];
    }
  }

  /** Length of the run of non-space characters that starts s. */
  function WordLength(s: string): (n: nat)
    ensures n <= |s|
    ensures forall i :: 0 <= i < n ==> !IsSpace(s[i])
    ensures n < |s| ==> IsSpace(s[n])
  {
    if s == [] || IsSpace(s[0]) then 0 else 1 + WordLength(s[1..])
  }

  predicate IsWord(w: string) {
    w != [] && forall i :: 0 <= i < |w| ==> !IsSpace(w[i])
  }

  /** `s.split()`: the maximal runs of non-whitespace characters. */
  function Split(s: string): (ws: seq<string>)
    ensures AllWords(ws)
    decreases |s|
  {
    var t := DropSpaces(s);
    if t == [] then []
    else
      var n := WordLength(t);
      WordPrefix(t);
      var rest := Split(t[n..]);
      ConsWords(t[..n], rest);
      [t[..n]] + rest
  }

  predicate AllWords(ws: seq<string>) {
    forall k :: 0 <= k < |ws| ==> IsWord(ws[k])
  }

  lemma ConsWords(w: string, ws: seq<string>)
    requires IsWord(w) && AllWords(ws)
    ensures AllWords([w] + ws)
  {
    assert forall k :: 0 < k <= |ws| ==> ([w] + ws)[k] == ws[k - 1];
  }

  /** A text that starts with a non-space starts with a word. */
  lemma WordPrefix(t: string)
    requires t != [] && !IsSpace(t[0])
    ensures 0 < WordLength(t) && IsWord(t[..WordLength(t)])
  {
    var n := WordLength(t);
    assert forall i :: 0 <= i < n ==> t[..n][i] == t[i];
  }

  /** `' '.join(ws)` */
  function Join(ws: seq<string>): string {
    if ws == [] then ""
    else if |ws| == 1 then ws[0]
    else ws[0] + " " + Join(ws[1..])
  }

  /**
   * Single-spaced text: the only whitespace is ' ', never at either end and
   * never two in a row.
   */
  predicate SingleSpaced(s: string) {
    && (forall i :: 0 <= i < |s| && IsSpace(s[i]) ==> s[i] == ' ')
    && (s != [] ==> s[0] != ' ' && s[|s| - 1] != ' ')
    && (forall i :: 0 <= i < |s| - 1 ==> !DoubleSpaceAt(s, i))
  }

  predicate DoubleSpaceAt(s: string, i: int)
    requires 0 <= i < |s| - 1
  {
    s[i] == ' ' && s[i + 1] == ' '
  }

  /** Joining words with single spaces gives single-spaced text. */
  lemma {:induction false} JoinSingleSpaced(ws: seq<string>)
    requires AllWords(ws)
    ensures SingleSpaced(Join(ws))
    ensures ws != [] ==> Join(ws) != []
  {
    if |ws| > 1 {
      JoinSingleSpaced(ws[1..]);
      var w, rest := ws[0], Join(ws[1..]);
      var s := w + " " + rest;
      assert s[..|w|] == w;
      assert s[|w| + 1..] == rest;
      forall i | 0 <= i < |s| - 1 ensures !DoubleSpaceAt(s, i) {
        if i < |w| {
          assert s[i] == w[i];
        } else if i > |w| {
          assert !DoubleSpaceAt(rest, i - |w| - 1);
          assert s[i] == rest[i - |w| - 1] && s[i + 1] == rest[i - |w|];
        } else {
          assert s[i + 1] == rest[0];
        }
      }
      forall i | 0 <= i < |s| && IsSpace(s[i]) ensures s[i] == ' ' {
        if i > |w| {
          assert s[i] == rest[i - |w| - 1];
        }
      }
    }
  }

  lemma SplitStartingWord(s: string)
    requires s != [] && !IsSpace(s[0])
    ensures Split(s) == [s[..WordLength(s)]] + Split(s[WordLength(s)..])
  {
    assert DropSpaces(s) == s;
  }

  /** A suffix of single-spaced text that starts with a non-space is single-spaced. */
  lemma SingleSpacedSuffix(s: string, m: nat)
    requires SingleSpaced(s) && m < |s| && s[m] != ' '
    ensures SingleSpaced(s[m..])
  {
    var rest := s[m..];
    forall i | 0 <= i < |rest| - 1 ensures !DoubleSpaceAt(rest, i) {
      assert !DoubleSpaceAt(s, m + i);
    }
    forall i | 0 <= i < |rest| && IsSpace(rest[i]) ensures rest[i] == ' ' {
      assert rest[i] == s[m + i];
    }
  }

  /** A space followed by a non-space is all DropSpaces removes. */
  lemma DropLeadingSpace(t: string)
    requires |t| >= 2 && IsSpace(t[0]) && !IsSpace(t[1])
    ensures DropSpaces(t) == t[1..]
  {
    assert DropSpaces(t) == DropSpaces(t[1..]);
  }

  lemma SingleSpacedAfterWord(s: string, n: nat)
    requires SingleSpaced(s) && s != []
    requires n == WordLength(s) && n < |s|
    ensures s[n] == ' ' && n + 1 < |s|
    ensures DropSpaces(s[n..]) == s[n + 1..]
    ensures SingleSpaced(s[n + 1..]) && !IsSpace(s[n + 1])
  {
    assert s[|s| - 1] != ' ';
    assert !DoubleSpaceAt(s, n);
    SingleSpacedSuffix(s, n + 1);
    DropLeadingSpace(s[n..]);
    assert s[n..][1..] == s[n + 1..];
  }

  lemma SpaceBetween(s: string, n: nat)
    requires n < |s| && s[n] == ' '
    ensures s == s[..n] + " " + s[n + 1..]
  {
    assert s == s[..n] + s[n..];
    assert s[n..] == [s[n]] + s[n + 1..];
  }

  lemma JoinCons(w: string, tail: seq<string>)
    requires tail != []
    ensures Join([w] + tail) == w + " " + Join(tail)
  {
    assert ([w] + tail)[1..] == tail;
  }

  lemma SplitWordSpaceRest(s: string, n: nat)
    requires s != [] && !IsSpace(s[0]) && n == WordLength(s) && n + 1 < |s|
    requires DropSpaces(s[n..]) == s[n + 1..] && !IsSpace(s[n + 1])
    ensures Split(s) == [s[..n]] + Split(s[n + 1..])
    ensures Split(s[n + 1..]) != []
  {
    SplitStartingWord(s);
    SplitStartingWord(s[n + 1..]);
  }

  /** Text made of one run of non-spaces splits into itself. */
  lemma SplitWholeWord(s: string)
    requires s != [] && !IsSpace(s[0]) && WordLength(s) == |s|
    ensures Split(s) == [s]
  {
    SplitStartingWord(s);
    assert s[..|s|] == s;
    assert s[|s|..] == [];
  }

  /** `' '.join(s.split())` leaves single-spaced text as it is. */
  lemma {:induction false} JoinSplitSingleSpaced(s: string)
    requires SingleSpaced(s)
    ensures Join(Split(s)) == s
    decreases |s|
  {
    if s != [] {
      var n := WordLength(s);
      if n == |s| {
        SplitWholeWord(s);
      } else {
        SingleSpacedAfterWord(s, n);
        var rest := s[n + 1..];
        JoinSplitSingleSpaced(rest);
        SplitWordSpaceRest(s, n);
        JoinCons(s[..n], Split(rest));
        SpaceBetween(s, n);
      }
    }
  }
}
