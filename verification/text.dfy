/**
 * String primitives shared by the ingestion pipeline and the bot: Python's
 * whitespace splitting, `join`, `strip`, the `in` substring test, ASCII case
 * folding and code-point string ordering.
 */
module Text {

  /** Python's whitespace for `str.split()` / `str.strip()`, restricted to ASCII. */
  predicate IsSpace(c: char) {
    || c == ' ' || c == '\t' || c == '\n' || c == '\r'
    || c == '\U{0B}' || c == '\U{0C}'
    || c == '\U{1C}' || c == '\U{1D}' || c == '\U{1E}' || c == '\U{1F}'
  }

  predicate AllSpace(s: string) {
    forall i :: 0 <= i < |s| ==> IsSpace(s[i])
  }

  /** A word as `str.split()` yields it: a non-empty run of non-whitespace. */
  predicate IsWord(w: string) {
    |w| > 0 && forall i :: 0 <= i < |w| ==> !IsSpace(w[i])
  }

  /** True when `s` has no whitespace at either end (what `strip` produces). */
  predicate Trimmed(s: string) {
    |s| == 0 || (!IsSpace(s[0]) && !IsSpace(s[|s| - 1]))
  }

  // ---------------------------------------------------------------------------
  // split / join
  // ---------------------------------------------------------------------------

  /** Length of the longest whitespace-free prefix of `s`. */
  function WordLength(s: string): (n: nat)
    ensures n <= |s|
    ensures forall i :: 0 <= i < n ==> !IsSpace(s[i])
    ensures n < |s| ==> IsSpace(s[n])
  {
    if |s| == 0 || IsSpace(s[0]) then 0 else 1 + WordLength(s[1..])
  }

  /** `s.split()`: the maximal whitespace-free runs of `s`, in order. */
  function Words(s: string): (ws: seq<string>)
    ensures forall k :: 0 <= k < |ws| ==> IsWord(ws[k])
    decreases |s|
  {
    if |s| == 0 then []
    else if IsSpace(s[0]) then Words(s[1..])
    else
      var n := WordLength(s);
      [s[..n]] + Words(s[n..])
  }

  /** `sep.join(parts)`. */
  function Join(parts: seq<string>, sep: string): string {
    if |parts| == 0 then ""
    else if |parts| == 1 then parts[0]
    else parts[0] + sep + Join(parts[1..], sep)
  }

  /** `"".join(parts)` for strings; for lists of lists, flattening. */
  function Concat<T>(parts: seq<seq<T>>): seq<T> {
    if |parts| == 0 then [] else parts[0] + Concat(parts[1..])
  }

  /** Sequence facts stated on their own, away from any other definitions,
      for proofs whose context makes them costly to rediscover. */
  lemma AppendAssoc<T>(a: seq<T>, b: seq<T>, c: seq<T>)
    ensures a + (b + c) == (a + b) + c
  {
  }

  lemma AppendEmpty<T>(a: seq<T>)
    ensures a + [] == a
  {
  }

  lemma SliceSplit<T>(s: seq<T>, i: nat, j: nat)
    requires i <= j <= |s|
    ensures s[i..] == s[i..j] + s[j..]
  {
  }

  lemma TakeDrop<T>(s: seq<T>, n: nat)
    requires n <= |s|
    ensures s[..n] + s[n..] == s
  {
  }

  lemma ConcatCons<T>(x: seq<T>, rest: seq<seq<T>>)
    ensures Concat([x] + rest) == x + Concat(rest)
  {
    assert ([x] + rest)[1..] == rest;
  }

  lemma SplitAppend<T>(a: seq<T>, b: seq<T>, n: nat)
    requires n <= |a|
    ensures (a + b)[..n] == a[..n]
    ensures (a + b)[n..] == a[n..] + b
  {
  }

  function TotalLength(parts: seq<string>): nat {
    if |parts| == 0 then 0 else |parts[0]| + TotalLength(parts[1..])
  }

  /** A string splits into no words exactly when it is all whitespace. */
  lemma {:induction false} WordsEmptyIff(s: string)
    ensures Words(s) == [] <==> AllSpace(s)
    decreases |s|
  {
    if |s| > 0 {
      if IsSpace(s[0]) {
        WordsEmptyIff(s[1..]);
        assert AllSpace(s) <==> AllSpace(s[1..]) by {
          if AllSpace(s[1..]) {
            forall i | 0 <= i < |s| ensures IsSpace(s[i]) {
              if i > 0 { assert s[i] == s[1..][i - 1]; }
            }
          }
        }
      } else {
        assert !AllSpace(s);
      }
    }
  }

  lemma {:induction false} WordLengthOfWord(w: string, rest: string)
    requires IsWord(w)
    requires |rest| == 0 || IsSpace(rest[0])
    ensures WordLength(w + rest) == |w|
    decreases |w|
  {
    if |w| > 1 {
      assert (w + rest)[1..] == w[1..] + rest;
      WordLengthOfWord(w[1..], rest);
    } else {
      assert (w + rest)[1..] == rest;
    }
  }

  /** Splitting text that starts with a whole word yields that word first. */
  lemma WordsOfWordThen(w: string, rest: string)
    requires IsWord(w)
    requires |rest| == 0 || IsSpace(rest[0])
    ensures Words(w + rest) == [w] + Words(rest)
  {
    WordLengthOfWord(w, rest);
    assert (w + rest)[..|w|] == w;
    assert (w + rest)[|w|..] == rest;
  }

  /**
   * Joining words with single spaces and splitting again gives the words
   * back: `" ".join(ws).split() == ws`.
   */
  lemma {:induction false} WordsOfJoin(ws: seq<string>)
    requires forall k :: 0 <= k < |ws| ==> IsWord(ws[k])
    ensures Words(Join(ws, " ")) == ws
  {
    if |ws| == 1 {
      WordsOfWordThen(ws[0], "");
      assert ws[0] + "" == ws[0];
    } else if |ws| > 1 {
      var rest := Join(ws[1..], " ");
      assert Join(ws, " ") == ws[0] + (" " + rest);
      WordsOfWordThen(ws[0], " " + rest);
      assert (" " + rest)[1..] == rest;
      WordsOfJoin(ws[1..]);
    }
  }

  /** Appending one part to a non-empty join adds one separator. */
  lemma {:induction false} JoinAppend(parts: seq<string>, x: string, sep: string)
    requires |parts| > 0
    ensures Join(parts + [x], sep) == Join(parts, sep) + sep + x
  {
    if |parts| > 1 {
      assert (parts + [x])[1..] == parts[1..] + [x];
      JoinAppend(parts[1..], x, sep);
    } else {
      assert (parts + [x])[1..] == [x];
    }
  }

  /** The joined string is the parts plus one separator between each pair. */
  lemma {:induction false} JoinLength(parts: seq<string>, sep: string)
    requires |parts| > 0
    ensures |Join(parts, sep)| == TotalLength(parts) + (|parts| - 1) * |sep|
  {
    if |parts| > 1 {
      JoinLength(parts[1..], sep);
    }
  }

  lemma {:induction false} ConcatAppend<T>(parts: seq<seq<T>>, x: seq<T>)
    ensures Concat(parts + [x]) == Concat(parts) + x
  {
    if |parts| == 0 {
      assert [x][1..] == [];
    } else {
      assert (parts + [x])[1..] == parts[1..] + [x];
      ConcatAppend(parts[1..], x);
    }
  }

  /** An element of a flattened list is an element of one of the parts. */
  lemma {:induction false} ConcatMember<T>(parts: seq<seq<T>>, x: T)
    ensures x in Concat(parts) <==> exists k :: 0 <= k < |parts| && x in parts[k]
  {
    if |parts| > 0 {
      ConcatMember(parts[1..], x);
      if x in Concat(parts[1..]) {
        var k :| 0 <= k < |parts[1..]| && x in parts[1..][k];
        assert x in parts[k + 1];
      }
      if exists k :: 0 < k < |parts| && x in parts[k] {
        var k :| 0 < k < |parts| && x in parts[k];
        assert x in parts[1..][k - 1];
      }
    }
  }

  lemma {:induction false} ConcatSplit<T>(a: seq<seq<T>>, b: seq<seq<T>>)
    ensures Concat(a + b) == Concat(a) + Concat(b)
  {
    if |a| > 0 {
      assert (a + b)[1..] == a[1..] + b;
      ConcatSplit(a[1..], b);
    } else {
      assert a + b == b;
    }
  }

  // ---------------------------------------------------------------------------
  // strip
  // ---------------------------------------------------------------------------

  /** Number of whitespace characters `s` starts with. */
  function LeadingSpace(s: string): (n: nat)
    ensures n <= |s|
    ensures forall i :: 0 <= i < n ==> IsSpace(s[i])
    ensures n < |s| ==> !IsSpace(s[n])
  {
    if |s| > 0 && IsSpace(s[0]) then 1 + LeadingSpace(s[1..]) else 0
  }

  /** Length of `s` once its trailing whitespace is removed. */
  function ContentEnd(s: string): (n: nat)
    ensures n <= |s|
    ensures forall i :: n <= i < |s| ==> IsSpace(s[i])
    ensures n > 0 ==> !IsSpace(s[n - 1])
  {
    if |s| > 0 && IsSpace(s[|s| - 1]) then ContentEnd(s[..|s| - 1]) else |s|
  }

  /**
   * `s.strip()`: the part of `s` between its leading and trailing whitespace;
   * only whitespace is removed, and none is left at either end.
   */
  function Strip(s: string): (r: string)
    ensures Trimmed(r)
    ensures LeadingSpace(s) + |r| <= |s|
    ensures r == s[LeadingSpace(s)..LeadingSpace(s) + |r|]
    ensures forall i :: LeadingSpace(s) + |r| <= i < |s| ==> IsSpace(s[i])
  {
    var a := LeadingSpace(s);
    var b := ContentEnd(s);
    if b <= a then "" else s[a..b]
  }

  /** `strip` leaves nothing exactly when the string is all whitespace. */
  lemma StripEmptyIff(s: string)
    ensures Strip(s) == [] <==> AllSpace(s)
  {
    var a := LeadingSpace(s);
    if Strip(s) != [] {
      assert !IsSpace(s[a]);
    }
  }

  /** A string without whitespace at its ends is left unchanged by `strip`. */
  lemma StripTrimmed(s: string)
    requires Trimmed(s)
    ensures Strip(s) == s
  {
    assert LeadingSpace(s) == 0;
    assert ContentEnd(s) == |s|;
  }

  // ---------------------------------------------------------------------------
  // what whitespace rewriting keeps: the words
  // ---------------------------------------------------------------------------

  /** `s` begins with a character of a word. */
  predicate StartsWord(s: string) {
    |s| > 0 && !IsSpace(s[0])
  }

  /** Whitespace in front of a string adds no words. */
  lemma {:induction false} WordsSpacePrefix(sp: string, t: string)
    requires AllSpace(sp)
    ensures Words(sp + t) == Words(t)
    decreases |sp|
  {
    if |sp| > 0 {
      assert (sp + t)[1..] == sp[1..] + t;
      WordsSpacePrefix(sp[1..], t);
    } else {
      assert sp + t == t;
    }
  }

  /** A word character in front of a string joins its first word, or forms a
      word of its own when the string does not start with one. */
  lemma WordsCons(c: char, t: string)
    requires !IsSpace(c)
    ensures var m := WordLength(t);
      Words([c] + t) == [[c] + t[..m]] + Words(t[m..])
  {
    var s := [c] + t;
    var m := WordLength(t);
    WordLengthCons(c, t);
    assert s[..m + 1] == [c] + t[..m];
    assert s[m + 1..] == t[m..];
  }

  lemma WordLengthCons(c: char, t: string)
    requires !IsSpace(c)
    ensures WordLength([c] + t) == 1 + WordLength(t)
  {
    assert ([c] + t)[1..] == t;
  }

  /** Strings with the same words that agree on starting a word keep the same
      words behind a word character. */
  lemma WordsConsSame(c: char, t: string, u: string)
    requires !IsSpace(c)
    requires Words(t) == Words(u) && (StartsWord(t) <==> StartsWord(u))
    ensures Words([c] + t) == Words([c] + u)
  {
    var m, n := WordLength(t), WordLength(u);
    WordsCons(c, t);
    WordsCons(c, u);
    WordsHead(t);
    WordsHead(u);
    if StartsWord(t) {
      assert t[..m] == Words(t)[0] == u[..n];
      assert Words(t[m..]) == Words(t)[1..] == Words(u[n..]);
    } else {
      assert t[..m] == u[..n] && Words(t[m..]) == Words(u[n..]);
    }
  }

  /** How a string's words begin: with its leading run when it starts a word,
      and otherwise that run is empty. */
  lemma WordsHead(t: string)
    ensures var m := WordLength(t);
      && (StartsWord(t) ==> Words(t) == [t[..m]] + Words(t[m..]))
      && (!StartsWord(t) ==> m == 0 && t[..m] == [] && t[m..] == t)
  {
  }

  /** Whitespace behind a string adds no words. */
  lemma {:induction false} WordsSpaceSuffix(t: string, sp: string)
    requires AllSpace(sp)
    ensures Words(t + sp) == Words(t)
    decreases |t|
  {
    if |t| == 0 {
      assert t + sp == sp;
      WordsEmptyIff(sp);
    } else {
      var rest := t[1..];
      assert t + sp == [t[0]] + (rest + sp);
      assert t == [t[0]] + rest;
      WordsSpaceSuffix(rest, sp);
      if IsSpace(t[0]) {
        WordsSpacePrefix([t[0]], rest + sp);
        WordsSpacePrefix([t[0]], rest);
      } else {
        assert StartsWord(rest + sp) <==> StartsWord(rest) by {
          if |rest| > 0 {
            assert (rest + sp)[0] == rest[0];
          } else if |sp| > 0 {
            assert (rest + sp)[0] == sp[0];
          }
        }
        WordsConsSame(t[0], rest + sp, rest);
      }
    }
  }

  /** `strip` keeps every word: `s.strip().split() == s.split()`. */
  lemma WordsStrip(s: string)
    ensures Words(Strip(s)) == Words(s)
  {
    var a := LeadingSpace(s);
    var b := a + |Strip(s)|;
    StripParts(s);
    WordsInner(s, a, b);
  }

  /** `strip` cuts whitespace from either end. */
  lemma StripParts(s: string)
    ensures var a := LeadingSpace(s);
      var b := a + |Strip(s)|;
      b <= |s| && AllSpace(s[..a]) && AllSpace(s[b..]) && Strip(s) == s[a..b]
  {
    var a := LeadingSpace(s);
    var b := a + |Strip(s)|;
    assert forall i :: 0 <= i < a ==> s[..a][i] == s[i];
    assert forall i :: 0 <= i < |s| - b ==> s[b..][i] == s[b + i];
  }

  /** The words of a string are those of its middle when both ends are whitespace. */
  lemma WordsInner(s: string, a: nat, b: nat)
    requires a <= b <= |s| && AllSpace(s[..a]) && AllSpace(s[b..])
    ensures Words(s[a..b]) == Words(s)
  {
    TakeDrop(s, a);
    SliceSplit(s, a, b);
    WordsSpacePrefix(s[..a], s[a..]);
    WordsSpaceSuffix(s[a..b], s[b..]);
  }

  // ---------------------------------------------------------------------------
  // substrings: Python's `t in s`
  // ---------------------------------------------------------------------------

  /** `t` occurs in `s` starting at index `i`. */
  predicate OccursAt(t: string, s: string, i: int) {
    0 <= i && i + |t| <= |s| && s[i..i + |t|] == t
  }

  predicate IsSubstring(t: string, s: string) {
    exists i | 0 <= i <= |s| - |t| :: OccursAt(t, s, i)
  }

  lemma SubstringRefl(s: string)
    ensures IsSubstring(s, s)
  {
    assert s[0..|s|] == s;
    assert OccursAt(s, s, 0);
  }

  lemma SubstringLength(t: string, s: string)
    requires IsSubstring(t, s)
    ensures |t| <= |s|
  {
  }

  lemma SubstringTrans(a: string, b: string, c: string)
    requires IsSubstring(a, b) && IsSubstring(b, c)
    ensures IsSubstring(a, c)
  {
    var i :| 0 <= i <= |b| - |a| && OccursAt(a, b, i);
    var j :| 0 <= j <= |c| - |b| && OccursAt(b, c, j);
    assert forall k :: 0 <= k < |a| ==> a[k] == b[i + k] == c[j + i + k];
    assert c[j + i..j + i + |a|] == a;
    assert OccursAt(a, c, j + i);
  }

  lemma SubstringAntisym(a: string, b: string)
    requires IsSubstring(a, b) && IsSubstring(b, a)
    ensures a == b
  {
    var i :| 0 <= i <= |b| - |a| && OccursAt(a, b, i);
    assert i == 0 && b[0..|b|] == b;
  }

  /** A slice of a string is a substring of it. */
  lemma SliceIsSubstring(s: string, a: nat, b: nat)
    requires a <= b <= |s|
    ensures IsSubstring(s[a..b], s)
  {
    assert OccursAt(s[a..b], s, a);
  }

  // ---------------------------------------------------------------------------
  // ASCII case folding (the case-insensitive regexes and `str.upper`)
  // ---------------------------------------------------------------------------

  function LowerChar(c: char): char {
    if 'A' <= c <= 'Z' then (c as int + 32) as char else c
  }

  function Lower(s: string): (r: string)
    ensures |r| == |s|
    ensures forall i :: 0 <= i < |s| ==> r[i] == LowerChar(s[i])
  {
    if |s| == 0 then [] else [LowerChar(s[0])] + Lower(s[1..])
  }

  /** Case-insensitive prefix test against a lower-case `prefix`. */
  predicate StartsWithCI(s: string, prefix: string) {
    |prefix| <= |s| && Lower(s[..|prefix|]) == prefix
  }

  /**
   * A case-insensitive `re.search` for an alternation of literals: some
   * (lower-case) alternative occurs in `value`.
   */
  predicate SearchCI(value: string, alternatives: seq<string>) {
    exists k :: 0 <= k < |alternatives| && IsSubstring(alternatives[k], Lower(value))
  }

  // ---------------------------------------------------------------------------
  // code-point ordering and sorted sets (Python's `sorted(set(xs))`)
  // ---------------------------------------------------------------------------

  /** Python's `a < b` on strings: lexicographic by code point, prefix first. */
  predicate Less(a: string, b: string)
    decreases |a|
  {
    |b| > 0 && (|a| == 0 || a[0] < b[0] || (a[0] == b[0] && Less(a[1..], b[1..])))
  }

  lemma {:induction false} LessIrreflexive(a: string)
    ensures !Less(a, a)
    decreases |a|
  {
    if |a| > 0 { LessIrreflexive(a[1..]); }
  }

  lemma {:induction false} LessTransitive(a: string, b: string, c: string)
    requires Less(a, b) && Less(b, c)
    ensures Less(a, c)
    decreases |a|
  {
    if |a| > 0 && a[0] == b[0] && b[0] == c[0] {
      LessTransitive(a[1..], b[1..], c[1..]);
    }
  }

  lemma {:induction false} LessTotal(a: string, b: string)
    requires a != b
    ensures Less(a, b) || Less(b, a)
    decreases |a|
  {
    if |a| > 0 && |b| > 0 && a[0] == b[0] {
      assert a == [a[0]] + a[1..] && b == [b[0]] + b[1..];
      LessTotal(a[1..], b[1..]);
    }
  }

  lemma LessAsymmetric(a: string, b: string)
    requires Less(a, b)
    ensures !Less(b, a)
  {
    if Less(b, a) {
      LessTransitive(a, b, a);
      LessIrreflexive(a);
    }
  }

  predicate StrictlySorted(xs: seq<string>) {
    forall i, j :: 0 <= i < j < |xs| ==> Less(xs[i], xs[j])
  }

  function Elements(xs: seq<string>): set<string> {
    set x | x in xs
  }

  /** Inserts `x` into a strictly sorted list unless it is already there. */
  function InsertSorted(x: string, ys: seq<string>): (r: seq<string>)
    requires StrictlySorted(ys)
    ensures StrictlySorted(r)
    ensures Elements(r) == Elements(ys) + {x}
  {
    if |ys| == 0 then [x]
    else if x == ys[0] then ys
    else if Less(x, ys[0]) then
      assert forall j :: 0 < j < |ys| ==> Less(x, ys[j]) by {
        forall j | 0 < j < |ys| ensures Less(x, ys[j]) { LessTransitive(x, ys[0], ys[j]); }
      }
      [x] + ys
    else
      LessTotal(x, ys[0]);
      var tail := InsertSorted(x, ys[1..]);
      assert Elements(ys) == {ys[0]} + Elements(ys[1..]);
      assert forall j :: 0 <= j < |tail| ==> Less(ys[0], tail[j]) by {
        forall j | 0 <= j < |tail| ensures Less(ys[0], tail[j]) {
          assert tail[j] in Elements(tail);
          if tail[j] != x {
            var m :| 0 <= m < |ys[1..]| && ys[1..][m] == tail[j];
            assert ys[m + 1] == tail[j];
          }
        }
      }
      assert Elements([ys[0]] + tail) == {ys[0]} + Elements(tail);
      [ys[0]] + tail
  }

  /** `sorted(set(xs))`: the distinct elements of `xs` in increasing order. */
  function SortedSet(xs: seq<string>): (r: seq<string>)
    ensures StrictlySorted(r)
    ensures Elements(r) == Elements(xs)
  {
    if |xs| == 0 then []
    else
      assert Elements(xs) == Elements(xs[..|xs| - 1]) + {xs[|xs| - 1]};
      InsertSorted(xs[|xs| - 1], SortedSet(xs[..|xs| - 1]))
  }

  /** The head of a strictly sorted list is below every other element. */
  lemma SortedHead(a: seq<string>, x: string)
    requires StrictlySorted(a) && x in Elements(a)
    ensures x == a[0] || Less(a[0], x)
  {
    var i :| 0 <= i < |a| && a[i] == x;
    if i > 0 {
      assert Less(a[0], a[i]);
    }
  }

  /** Dropping the head of a strictly sorted list drops exactly that element. */
  lemma SortedTail(a: seq<string>)
    requires StrictlySorted(a) && |a| > 0
    ensures StrictlySorted(a[1..])
    ensures Elements(a[1..]) == Elements(a) - {a[0]}
  {
    forall k | 0 <= k < |a| - 1
      ensures a[1..][k] != a[0]
    {
      assert Less(a[0], a[k + 1]);
      LessIrreflexive(a[0]);
    }
    assert Elements(a) == {a[0]} + Elements(a[1..]);
  }

  /** A strictly sorted list is determined by its set of elements. */
  lemma {:induction false} SortedUnique(a: seq<string>, b: seq<string>)
    requires StrictlySorted(a) && StrictlySorted(b)
    requires Elements(a) == Elements(b)
    ensures a == b
    decreases |a|
  {
    ElementsEmpty(a);
    ElementsEmpty(b);
    if |a| > 0 {
      assert a[0] in Elements(a);
      assert |b| > 0;
      assert b[0] in Elements(b);
      SortedHead(a, b[0]);
      SortedHead(b, a[0]);
      LessNotBoth(a[0], b[0]);
      assert a[0] == b[0];
      SortedTail(a);
      SortedTail(b);
      SortedUnique(a[1..], b[1..]);
      assert a == [a[0]] + a[1..] && b == [b[0]] + b[1..];
    }
  }

  lemma ElementsEmpty(xs: seq<string>)
    ensures Elements(xs) == {} <==> |xs| == 0
  {
    if |xs| > 0 {
      assert xs[0] in Elements(xs);
    }
  }

  /** No two strings are each below the other. */
  lemma LessNotBoth(a: string, b: string)
    ensures !(Less(a, b) && Less(b, a))
  {
    if Less(a, b) {
      LessAsymmetric(a, b);
    }
  }

  /** A strictly sorted list has no repeated element. */
  lemma SortedDistinct(xs: seq<string>)
    requires StrictlySorted(xs)
    ensures forall i, j :: 0 <= i < |xs| && 0 <= j < |xs| && i != j ==> xs[i] != xs[j]
  {
    forall i, j | 0 <= i < |xs| && 0 <= j < |xs| && i != j ensures xs[i] != xs[j] {
      if i < j { LessIrreflexive(xs[i]); } else { LessIrreflexive(xs[j]); }
    }
  }

  // ---------------------------------------------------------------------------
  // decimal numerals (`str(n)`, `f"{n:04d}"`)
  // ---------------------------------------------------------------------------

  function DigitChar(d: nat): char
    requires d < 10
  {
    ('0' as int + d) as char
  }

  predicate IsDigit(c: char) {
    '0' <= c <= '9'
  }

  /** `str(n)` for a non-negative integer. */
  function Decimal(n: nat): (r: string)
    ensures |r| > 0
    ensures forall i :: 0 <= i < |r| ==> IsDigit(r[i])
  {
    if n < 10 then [DigitChar(n)] else Decimal(n / 10) + [DigitChar(n % 10)]
  }

  /** `int(s)` for a string of decimal digits (empty reads as 0). */
  function DecimalValue(s: string): nat
    requires forall i :: 0 <= i < |s| ==> IsDigit(s[i])
  {
    if |s| == 0 then 0
    else
      assert IsDigit(s[|s| - 1]);
      10 * DecimalValue(s[..|s| - 1]) + (s[|s| - 1] as int - '0' as int)
  }

  /** Reading a numeral back gives the number. */
  lemma {:induction false} DecimalRoundTrip(n: nat)
    ensures DecimalValue(Decimal(n)) == n
  {
    if n >= 10 {
      var d := Decimal(n);
      assert d[..|d| - 1] == Decimal(n / 10);
      DecimalRoundTrip(n / 10);
    }
  }

  /** `k` zero digits. */
  function Zeros(k: nat): (r: string)
    ensures |r| == k
    ensures forall i :: 0 <= i < k ==> r[i] == '0'
  {
    if k == 0 then "" else "0" + Zeros(k - 1)
  }

  /** Leading zeros do not change a numeral's value. */
  lemma {:induction false} LeadingZeros(k: nat, s: string)
    requires forall i :: 0 <= i < |s| ==> IsDigit(s[i])
    ensures DecimalValue(Zeros(k) + s) == DecimalValue(s)
    decreases |s|
  {
    var z := Zeros(k);
    if |s| == 0 {
      assert z + s == z;
      ZerosValue(k);
    } else {
      assert (z + s)[..|z + s| - 1] == z + s[..|s| - 1];
      LeadingZeros(k, s[..|s| - 1]);
    }
  }

  /** A numeral of zeros only reads as 0. */
  lemma {:induction false} ZerosValue(k: nat)
    ensures DecimalValue(Zeros(k)) == 0
  {
    if k > 0 {
      assert Zeros(k)[..k - 1] == Zeros(k - 1);
      ZerosValue(k - 1);
    }
  }
}
