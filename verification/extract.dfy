/**
 * `extract_article_text`: clean the page, pick the content container by a
 * fixed cascade of lookups, then turn the container into text: the
 * substantial text fragments with nested repeats removed, or all of its text
 * when there are none, with whitespace tidied.
 */
module Extract {
  import opened Wrappers
  import opened Text
  import opened Seqs
  import opened Html

  // ---------------------------------------------------------------------------
  // the container cascade
  // ---------------------------------------------------------------------------

  /** Wikipedia's article body, looked for only on wikipedia.org pages. */
  const WikipediaRule: Rule := DivWithId("mw-content-text")

  /** `article[_-]?body|article[_-]?content|post[_-]?content|entry[_-]?content|story[_-]?body`, spelled out. */
  const BodyClassPatterns: seq<string> := [
    "articlebody", "article_body", "article-body",
    "articlecontent", "article_content", "article-content",
    "postcontent", "post_content", "post-content",
    "entrycontent", "entry_content", "entry-content",
    "storybody", "story_body", "story-body"
  ]

  /** `article|content|post|entry|story`. */
  const ContentPatterns: seq<string> := ["article", "content", "post", "entry", "story"]

  /** The lookups tried after the Wikipedia one, in order: Squarespace blocks, then generic patterns. */
  const GenericRules: seq<Rule> := [
    DivClassLike(["sqs-block-content"]),
    DivClassLike(["blog-item-content"]),
    TagIs("article"),
    TagIs("main"),
    DivWithRole("main"),
    DivClassLike(BodyClassPatterns),
    DivIdLike(ContentPatterns),
    DivClassLike(ContentPatterns)
  ]

  /** The lookups for a page at `url`. */
  function RulesFor(url: string): seq<Rule> {
    (if IsSubstring("wikipedia.org", url) then [WikipediaRule] else []) + GenericRules
  }

  /**
   * The first lookup that finds something, and what it found. A found tag is
   * always truthy, so each `if not container` and `or` falls through only on
   * `None`.
   */
  function FirstFound(root: Node, rules: seq<Rule>): (r: Option<Node>)
    ensures r.None? <==> forall i :: 0 <= i < |rules| ==> Find(root, rules[i]).None?
    ensures r.Some? ==> exists i :: 0 <= i < |rules| && Find(root, rules[i]) == r
                                 && forall j :: 0 <= j < i ==> Find(root, rules[j]).None?
  {
    if |rules| == 0 then None
    else if Find(root, rules[0]).Some? then Find(root, rules[0])
    else
      var r := FirstFound(root, rules[1..]);
      assert r.Some? ==> exists i :: 0 <= i < |rules| - 1 && Find(root, rules[1..][i]) == r
                                 && forall j :: 0 <= j < i ==> Find(root, rules[1..][j]).None?;
      r
  }

  /** The container the text is taken from: the cascade's find, else `<body>`, else the whole page. */
  function Locate(root: Node, url: string): Node {
    match FirstFound(root, RulesFor(url))
    case Some(c) => c
    case None => Find(root, TagIs("body")).GetOr(root)
  }

  /** On a wikipedia.org page that has it, `div#mw-content-text` is the container. */
  lemma LocateWikipedia(root: Node, url: string, c: Node)
    requires IsSubstring("wikipedia.org", url)
    requires Find(root, WikipediaRule) == Some(c)
    ensures Locate(root, url) == c
  {
  }

  /** Apart from the wikipedia.org test, the container does not depend on the URL. */
  lemma LocateUrlIndependent(root: Node, u1: string, u2: string)
    requires IsSubstring("wikipedia.org", u1) == IsSubstring("wikipedia.org", u2)
    ensures Locate(root, u1) == Locate(root, u2)
  {
  }

  /**
   * Off Wikipedia, and with no Squarespace block, the first `<article>` wins
   * over every later lookup, e.g. a `div.article-content` elsewhere on the page.
   */
  lemma ArticleBeatsClassHeuristics(root: Node, url: string, a: Node)
    requires !IsSubstring("wikipedia.org", url)
    requires Find(root, GenericRules[0]).None? && Find(root, GenericRules[1]).None?
    requires Find(root, TagIs("article")) == Some(a)
    ensures Locate(root, url) == a
  {
    var rules := RulesFor(url);
    assert rules == GenericRules;
    assert rules[2] == TagIs("article");
  }

  /** When no lookup finds anything the container is `<body>`, or the page if there is none. */
  lemma LocateFallback(root: Node, url: string)
    requires forall i :: 0 <= i < |RulesFor(url)| ==> Find(root, RulesFor(url)[i]).None?
    ensures Find(root, TagIs("body")).Some? ==> Locate(root, url) == Find(root, TagIs("body")).value
    ensures Find(root, TagIs("body")).None? ==> Locate(root, url) == root
  {
  }

  /** The container is the first lookup's find, in cascade order, if any lookup finds something. */
  lemma LocateFirstMatch(root: Node, url: string, i: nat)
    requires i < |RulesFor(url)|
    requires Find(root, RulesFor(url)[i]).Some?
    requires forall j :: 0 <= j < i ==> Find(root, RulesFor(url)[j]).None?
    ensures Locate(root, url) == Find(root, RulesFor(url)[i]).value
  {
    var rules := RulesFor(url);
    var r := FirstFound(root, rules);
    var k :| 0 <= k < |rules| && Find(root, rules[k]) == r
           && forall j :: 0 <= j < k ==> Find(root, rules[j]).None?;
    assert k == i by {
      assert k <= i;
      assert !(k < i);
    }
  }

  // ---------------------------------------------------------------------------
  // text fragments and de-duplication
  // ---------------------------------------------------------------------------

  /** The elements whose text is collected as a fragment. */
  const TextTags: set<string> :=
    {"p", "h1", "h2", "h3", "h4", "h5", "h6", "li", "blockquote", "td", "dd", "dt", "span", "div"}

  /** Fragments shorter than this many characters plus one are dropped. */
  const MinFragment: nat := 20

  /** Each element's `get_text(" ", strip=True)`, kept when longer than 20 characters. */
  function LongTexts(els: seq<Node>): (lines: seq<string>)
    ensures forall i :: 0 <= i < |lines| ==> |lines[i]| > MinFragment
    ensures forall i :: 0 <= i < |els| && |GetText(els[i], " ")| > MinFragment ==> GetText(els[i], " ") in lines
    ensures forall t :: t in lines ==> exists i :: 0 <= i < |els| && GetText(els[i], " ") == t
  {
    if |els| == 0 then []
    else
      var t := GetText(els[0], " ");
      var rest := LongTexts(els[1..]);
      assert forall i :: 1 <= i < |els| ==> els[i] == els[1..][i - 1];
      if |t| > MinFragment then [t] + rest else rest
  }

  /** Every element's `get_text(" ", strip=True)`, long or not, in element order. */
  function ElementTexts(els: seq<Node>): seq<string> {
    seq(|els|, i requires 0 <= i < |els| => GetText(els[i], " "))
  }

  /** One more element in front puts its text in front. */
  lemma ElementTextsCons(els: seq<Node>)
    requires |els| > 0
    ensures ElementTexts(els) == [GetText(els[0], " ")] + ElementTexts(els[1..])
  {
  }

  /** The kept texts keep the order of the elements they come from. */
  lemma {:induction false} LongTextsSubseq(els: seq<Node>)
    ensures IsSubseq(LongTexts(els), ElementTexts(els))
  {
    if |els| > 0 {
      var t := GetText(els[0], " ");
      LongTextsSubseq(els[1..]);
      ElementTextsCons(els);
      if |t| > MinFragment {
        SubseqCons(t, LongTexts(els[1..]), ElementTexts(els[1..]));
      } else {
        SubseqSkip(t, LongTexts(els[1..]), ElementTexts(els[1..]));
      }
    }
  }

  /** How often a text is kept: as often as it occurs when long, never when short. */
  ghost predicate CountsKept(lines: seq<string>, texts: seq<string>) {
    forall t :: multiset(lines)[t] == if |t| > MinFragment then multiset(texts)[t] else 0
  }

  /** Each long text is kept as many times as it occurs, and no short one is. */
  lemma {:induction false} LongTextsCount(els: seq<Node>)
    ensures CountsKept(LongTexts(els), ElementTexts(els))
  {
    if |els| > 0 {
      var t := GetText(els[0], " ");
      var rest := LongTexts(els[1..]);
      var all := ElementTexts(els[1..]);
      LongTextsCount(els[1..]);
      ElementTextsCons(els);
      assert multiset([t] + all) == multiset([t]) + multiset(all);
      if |t| > MinFragment {
        assert multiset(LongTexts(els)) == multiset([t]) + multiset(rest) by {
          assert LongTexts(els) == [t] + rest;
        }
      }
    }
  }

  /**
   * The kept texts are the long element texts in element order, each as
   * many times as it occurs: a subsequence of all texts, with every long
   * text's multiplicity intact and every short one gone.
   */
  lemma LongTextsInOrder(els: seq<Node>)
    ensures IsSubseq(LongTexts(els), ElementTexts(els))
    ensures forall t :: multiset(LongTexts(els))[t] ==
                        if |t| > MinFragment then multiset(ElementTexts(els))[t] else 0
  {
    LongTextsSubseq(els);
    LongTextsCount(els);
  }

  /** Texts of a subsequence of elements form a subsequence of their texts. */
  lemma {:induction false} SubseqTexts(a: seq<Node>, b: seq<Node>)
    requires IsSubseq(a, b)
    ensures IsSubseq(ElementTexts(a), ElementTexts(b))
    decreases |b|
  {
    if |a| == 0 {
      assert ElementTexts(a) == [];
    } else {
      assert |b| > 0;
      ElementTextsCons(b);
      if a[0] == b[0] {
        SubseqTexts(a[1..], b[1..]);
        ElementTextsCons(a);
        SubseqCons(GetText(a[0], " "), ElementTexts(a[1..]), ElementTexts(b[1..]));
      } else {
        SubseqTexts(a, b[1..]);
        SubseqSkip(GetText(b[0], " "), ElementTexts(a), ElementTexts(b[1..]));
      }
    }
  }

  /** The fragments of a container, in document order. */
  function Fragments(c: Node): seq<string> {
    LongTexts(FindAll(c, TagIn(TextTags)))
  }

  /**
   * The fragments follow document order: they are a subsequence of the
   * texts of all of the container's descendants, taken in pre-order.
   */
  lemma FragmentsInOrder(c: Node)
    ensures IsSubseq(Fragments(c), ElementTexts(Descendants(c)))
  {
    var els := FindAll(c, TagIn(TextTags));
    LongTextsInOrder(els);
    SubseqTexts(els, Descendants(c));
    SubseqTrans(Fragments(c), ElementTexts(els), ElementTexts(Descendants(c)));
  }

  /** `deduped` with every line that occurs inside `line` removed. */
  function Evict(deduped: seq<string>, line: string): (r: seq<string>)
    ensures IsSubseq(r, deduped)
    ensures forall s :: s in r <==> s in deduped && !IsSubstring(s, line)
  {
    if |deduped| == 0 then []
    else
      var rest := Evict(deduped[1..], line);
      assert deduped == [deduped[0]] + deduped[1..];
      if IsSubstring(deduped[0], line) then
        SubseqSkip(deduped[0], rest, deduped[1..]);
        rest
      else
        SubseqCons(deduped[0], rest, deduped[1..]);
        [deduped[0]] + rest
  }

  /** Some kept line contains `line`. */
  predicate Covered(line: string, kept: seq<string>) {
    exists s :: s in kept && IsSubstring(line, s)
  }

  /** One iteration of the de-duplication loop. */
  function DedupStep(deduped: seq<string>, line: string): seq<string> {
    if Covered(line, deduped) then deduped else Evict(deduped, line) + [line]
  }

  /** The de-duplication loop run over all of `lines`. */
  function DedupAll(lines: seq<string>): seq<string>
    decreases |lines|
  {
    if |lines| == 0 then []
    else DedupStep(DedupAll(lines[..|lines| - 1]), lines[|lines| - 1])
  }

  /** `line` occurs in `lines` and inside no other line of `lines`. */
  predicate Maximal(line: string, lines: seq<string>) {
    line in lines && forall m :: m in lines && IsSubstring(line, m) ==> m == line
  }

  /** No kept line occurs inside another kept line; in particular none is kept twice. */
  predicate Antichain(kept: seq<string>) {
    forall i, j :: 0 <= i < |kept| && 0 <= j < |kept| && i != j ==> !IsSubstring(kept[i], kept[j])
  }

  /** What the de-duplication loop guarantees about the lines kept from `lines`. */
  ghost predicate DedupFacts(kept: seq<string>, lines: seq<string>) {
    && Antichain(kept)
    && IsSubseq(kept, lines)
    && (forall l :: l in lines ==> Covered(l, kept))
    && (forall l :: l in kept <==> Maximal(l, lines))
  }

  /**
   * The loop keeps, in their original order and once each, exactly the
   * lines that occur inside no other line; every line occurs inside a kept one.
   */
  lemma {:induction false} DedupAllFacts(lines: seq<string>)
    ensures DedupFacts(DedupAll(lines), lines)
    decreases |lines|
  {
    if |lines| == 0 {
    } else {
      var p := lines[..|lines| - 1];
      var x := lines[|lines| - 1];
      assert lines == p + [x];
      DedupAllFacts(p);
      DedupStepFacts(DedupAll(p), p, x);
    }
  }

  lemma DedupStepFacts(ds: seq<string>, p: seq<string>, x: string)
    requires DedupFacts(ds, p)
    ensures DedupFacts(DedupStep(ds, x), p + [x])
  {
    if Covered(x, ds) {
      DedupCoveredStep(ds, p, x);
    } else {
      DedupFreshStep(ds, p, x);
    }
  }

  /** A line inside a kept one is skipped and the facts carry over. */
  lemma DedupCoveredStep(ds: seq<string>, p: seq<string>, x: string)
    requires DedupFacts(ds, p) && Covered(x, ds)
    ensures DedupFacts(ds, p + [x])
  {
    var lines := p + [x];
    assert forall l :: l in lines <==> l in p || l == x;
    var s :| s in ds && IsSubstring(x, s);
    SubseqConcat(ds, p, [], [x]);
    assert ds + [] == ds;
    forall l | l in ds ensures Maximal(l, lines) {
      assert Maximal(l, p);
      if IsSubstring(l, x) {
        SubstringTrans(l, x, s);
        SubstringAntisym(l, x);
      }
    }
    forall l | Maximal(l, lines) ensures l in ds {
      if l == x {
        SubseqMembers(ds, p);
      } else {
        assert Maximal(l, p);
      }
    }
  }

  /** A line inside no kept one evicts what it contains and is kept last. */
  lemma DedupFreshStep(ds: seq<string>, p: seq<string>, x: string)
    requires DedupFacts(ds, p) && !Covered(x, ds)
    ensures DedupFacts(Evict(ds, x) + [x], p + [x])
  {
    var lines := p + [x];
    assert forall l :: l in lines <==> l in p || l == x;
    SubseqRefl([x]);
    var ev := Evict(ds, x);
    var r := ev + [x];
    SubstringRefl(x);
    // order and multiplicity
    SubseqTrans(ev, ds, p);
    SubseqConcat(ev, p, [x], [x]);
    FreshAntichain(ds, x);
    // coverage
    forall l | l in lines ensures Covered(l, r) {
      if l == x {
        assert x in r;
      } else {
        var s :| s in ds && IsSubstring(l, s);
        if IsSubstring(s, x) {
          SubstringTrans(l, s, x);
          assert x in r;
        } else {
          assert s in r;
        }
      }
    }
    // the kept lines are the maximal ones
    forall l | l in r ensures Maximal(l, lines) {
      if l == x {
        forall m | m in lines && IsSubstring(x, m) ensures m == x {
          if m != x {
            var s :| s in ds && IsSubstring(m, s);
            SubstringTrans(x, m, s);
          }
        }
      } else {
        assert l in ds && Maximal(l, p) && !IsSubstring(l, x);
      }
    }
    forall l | Maximal(l, lines) ensures l in r {
      if l != x {
        assert Maximal(l, p);
        assert l in ds;
        if IsSubstring(l, x) {
          assert x == l;
        }
      }
    }
  }

  /** Evicting the lines inside `x` and appending `x` keeps the antichain. */
  lemma FreshAntichain(ds: seq<string>, x: string)
    requires Antichain(ds) && !Covered(x, ds)
    ensures Antichain(Evict(ds, x) + [x])
  {
    var ev := Evict(ds, x);
    var r := ev + [x];
    forall i, j | 0 <= i < |r| && 0 <= j < |r| && i != j
      ensures !IsSubstring(r[i], r[j])
    {
      if i < |ev| && j < |ev| {
        AntichainSubseq(ev, ds, i, j);
      } else if i < |ev| {
        assert r[i] in ev && r[j] == x;
      } else {
        assert r[i] == x && r[j] in ev && r[j] in ds;
      }
    }
  }

  lemma AntichainSubseq(ev: seq<string>, ds: seq<string>, i: nat, j: nat)
    requires Antichain(ds) && IsSubseq(ev, ds)
    requires i < |ev| && j < |ev| && i != j
    ensures !IsSubstring(ev[i], ev[j])
  {
    var ki, kj := SubseqIndex(ev, ds, i, j);
  }

  /** Two distinct positions of a subsequence come from two distinct positions of the whole. */
  lemma {:induction false} SubseqIndex(a: seq<string>, b: seq<string>, i: nat, j: nat)
    returns (ki: nat, kj: nat)
    requires IsSubseq(a, b) && i < |a| && j < |a| && i != j
    ensures ki < |b| && kj < |b| && ki != kj && b[ki] == a[i] && b[kj] == a[j]
    decreases |b|
  {
    if a[0] == b[0] {
      if i == 0 {
        var k := SubseqPos(a[1..], b[1..], j - 1);
        ki, kj := 0, k + 1;
      } else if j == 0 {
        var k := SubseqPos(a[1..], b[1..], i - 1);
        ki, kj := k + 1, 0;
      } else {
        var ki', kj' := SubseqIndex(a[1..], b[1..], i - 1, j - 1);
        ki, kj := ki' + 1, kj' + 1;
      }
    } else {
      var ki', kj' := SubseqIndex(a, b[1..], i, j);
      ki, kj := ki' + 1, kj' + 1;
    }
  }

  lemma {:induction false} SubseqPos(a: seq<string>, b: seq<string>, i: nat) returns (k: nat)
    requires IsSubseq(a, b) && i < |a|
    ensures k < |b| && b[k] == a[i]
    decreases |b|
  {
    if a[0] == b[0] {
      if i == 0 {
        k := 0;
      } else {
        var k' := SubseqPos(a[1..], b[1..], i - 1);
        k := k' + 1;
      }
    } else {
      var k' := SubseqPos(a, b[1..], i);
      k := k' + 1;
    }
  }

  /**
   * The de-duplication loop as written: a set `seen` alongside the list
   * `deduped`, skipping a line found inside a seen one and otherwise evicting
   * the lines found inside it.
   */
  method Dedup(lines: seq<string>) returns (deduped: seq<string>)
    ensures deduped == DedupAll(lines)
  {
    var seen: set<string> := {};
    deduped := [];
    var i := 0;
    while i < |lines|
      invariant 0 <= i <= |lines|
      invariant deduped == DedupAll(lines[..i])
      invariant seen == Elements(deduped)
    {
      var line := lines[i];
      DedupAllPrefix(lines, i);
      SeenStep(seen, deduped, line);
      if exists s :: s in seen && IsSubstring(line, s) {
        i := i + 1;
        continue;
      }
      deduped := Evict(deduped, line);
      seen := set s | s in seen && !IsSubstring(s, line);
      deduped := deduped + [line];
      seen := seen + {line};
      i := i + 1;
    }
    assert lines[..i] == lines;
  }

  /** One more line of input is one more step of the loop. */
  lemma DedupAllPrefix(lines: seq<string>, i: nat)
    requires i < |lines|
    ensures DedupAll(lines[..i + 1]) == DedupStep(DedupAll(lines[..i]), lines[i])
  {
    assert lines[..i + 1][..i] == lines[..i];
  }

  /** The set `seen` answers the loop's test and follows its update. */
  lemma SeenStep(seen: set<string>, deduped: seq<string>, line: string)
    requires seen == Elements(deduped)
    ensures (exists s :: s in seen && IsSubstring(line, s)) <==> Covered(line, deduped)
    ensures (set s | s in seen && !IsSubstring(s, line)) + {line} == Elements(Evict(deduped, line) + [line])
  {
    var ev := Evict(deduped, line);
    assert Elements(ev + [line]) == Elements(ev) + {line};
  }

  // ---------------------------------------------------------------------------
  // whitespace clean-up
  // ---------------------------------------------------------------------------

  /** Length of the run of `c` at the start of `s`. */
  function RunOf(s: string, c: char): (n: nat)
    ensures n <= |s|
    ensures forall i :: 0 <= i < n ==> s[i] == c
    ensures n < |s| ==> s[n] != c
  {
    if |s| == 0 || s[0] != c then 0 else 1 + RunOf(s[1..], c)
  }

  predicate IsBlank(c: char) {
    c == ' ' || c == '\t'
  }

  /** Length of the run of spaces and tabs at the start of `s`. */
  function BlankRun(s: string): (n: nat)
    ensures n <= |s|
    ensures forall i :: 0 <= i < n ==> IsBlank(s[i])
    ensures n < |s| ==> !IsBlank(s[n])
  {
    if |s| == 0 || !IsBlank(s[0]) then 0 else 1 + BlankRun(s[1..])
  }

  /** No three newlines in a row. */
  predicate NoTripleNewline(s: string) {
    forall i :: 0 <= i < |s| - 2 ==> !(s[i] == '\n' && s[i + 1] == '\n' && s[i + 2] == '\n')
  }

  /** No tab and no two spaces in a row. */
  predicate NoBlankRuns(s: string) {
    && (forall i :: 0 <= i < |s| ==> s[i] != '\t')
    && (forall i :: 0 <= i < |s| - 1 ==> !(s[i] == ' ' && s[i + 1] == ' '))
  }

  /** `re.sub(r"\n{3,}", "\n\n", s)`. */
  function CollapseNewlines(s: string): (r: string)
    ensures NoTripleNewline(r)
    ensures |s| > 0 ==> |r| > 0 && (r[0] == '\n' <==> s[0] == '\n')
    decreases |s|
  {
    if |s| == 0 then ""
    else if s[0] != '\n' then
      var rest := CollapseNewlines(s[1..]);
      NoTripleCons(s[0], rest);
      [s[0]] + rest
    else
      var n := RunOf(s, '\n');
      var head := if n >= 3 then "\n\n" else s[..n];
      var rest := CollapseNewlines(s[n..]);
      ShortRunThenText(head, rest);
      head + rest
  }

  /** At most two newlines in front of a string free of triple newlines that
      does not start with one add none. */
  lemma ShortRunThenText(head: string, rest: string)
    requires |head| <= 2 && forall i :: 0 <= i < |head| ==> head[i] == '\n'
    requires NoTripleNewline(rest) && (|rest| > 0 ==> rest[0] != '\n')
    ensures NoTripleNewline(head + rest)
    ensures |head| > 0 ==> (head + rest)[0] == '\n'
  {
    var r := head + rest;
    forall i | 0 <= i < |r| - 2
      ensures !(r[i] == '\n' && r[i + 1] == '\n' && r[i + 2] == '\n')
    {
      if i >= |head| {
        assert r[i] == rest[i - |head|] && r[i + 1] == rest[i - |head| + 1] && r[i + 2] == rest[i - |head| + 2];
      } else if |rest| > 0 {
        assert r[|head|] == rest[0];
      }
    }
  }

  /** `re.sub(r"[ \t]+", " ", s)`. */
  function CollapseBlanks(s: string): (r: string)
    ensures NoBlankRuns(r)
    ensures |s| > 0 ==> |r| > 0 && (IsBlank(r[0]) <==> IsBlank(s[0]))
    decreases |s|
  {
    if |s| == 0 then ""
    else if IsBlank(s[0]) then
      var rest := CollapseBlanks(s[BlankRun(s)..]);
      var r := " " + rest;
      assert forall i :: 0 <= i < |rest| ==> r[1 + i] == rest[i];
      r
    else
      var rest := CollapseBlanks(s[1..]);
      var r := [s[0]] + rest;
      assert forall i :: 0 <= i < |rest| ==> r[1 + i] == rest[i];
      r
  }

  /** Collapsing blanks leaves the leading run of newlines alone. */
  lemma {:induction false} CollapseBlanksRun(s: string)
    ensures RunOf(CollapseBlanks(s), '\n') == RunOf(s, '\n')
    decreases |s|
  {
    if |s| > 0 && s[0] == '\n' {
      CollapseBlanksRun(s[1..]);
      assert CollapseBlanks(s)[1..] == CollapseBlanks(s[1..]);
    }
  }

  /** Collapsing blanks creates no run of three newlines. */
  lemma {:induction false} CollapseBlanksNewlines(s: string)
    requires NoTripleNewline(s)
    ensures NoTripleNewline(CollapseBlanks(s))
    decreases |s|
  {
    if |s| > 0 {
      var k := if IsBlank(s[0]) then BlankRun(s) else 1;
      var tail := s[k..];
      SuffixNoTriple(s, k);
      CollapseBlanksNewlines(tail);
      CollapseBlanksRun(tail);
      if s[0] == '\n' {
        assert k == 1 && CollapseBlanks(s)[0] == '\n';
        assert |tail| >= 2 ==> tail[0] == s[1] && tail[1] == s[2];
      }
      NoTripleCons(CollapseBlanks(s)[0], CollapseBlanks(tail));
    }
  }

  lemma SuffixNoTriple(s: string, k: nat)
    requires k <= |s| && NoTripleNewline(s)
    ensures NoTripleNewline(s[k..])
  {
    assert forall i :: 0 <= i < |s| - k ==> s[k..][i] == s[k + i];
  }

  /** A character in front of a string free of triple newlines adds none unless two newlines follow a newline. */
  lemma NoTripleCons(c: char, rest: string)
    requires NoTripleNewline(rest)
    requires c == '\n' ==> RunOf(rest, '\n') < 2
    ensures NoTripleNewline([c] + rest)
  {
    var r := [c] + rest;
    forall i | 0 <= i < |r| - 2
      ensures !(r[i] == '\n' && r[i + 1] == '\n' && r[i + 2] == '\n')
    {
      if i > 0 {
        assert r[i] == rest[i - 1] && r[i + 1] == rest[i] && r[i + 2] == rest[i + 1];
      } else if c == '\n' {
        assert r[1] == rest[0] && r[2] == rest[1];
      }
    }
  }

  /** The clean-up applied to the container's text: collapse newlines, then blanks, then strip. */
  function Normalize(s: string): (r: string)
    ensures NoTripleNewline(r) && NoBlankRuns(r) && Trimmed(r)
  {
    var t := CollapseBlanks(CollapseNewlines(s));
    CollapseBlanksNewlines(CollapseNewlines(s));
    var r := Strip(t);
    SliceKeepsShape(t, LeadingSpace(t), LeadingSpace(t) + |r|);
    r
  }

  /** A contiguous piece of a string keeps its freedom from newline and blank runs. */
  lemma SliceKeepsShape(s: string, a: nat, b: nat)
    requires a <= b <= |s|
    ensures NoTripleNewline(s) ==> NoTripleNewline(s[a..b])
    ensures NoBlankRuns(s) ==> NoBlankRuns(s[a..b])
  {
    assert forall i :: 0 <= i < b - a ==> s[a..b][i] == s[a + i];
  }

  /** Text already free of triple newlines passes through the newline collapse unchanged. */
  lemma {:induction false} CollapseNewlinesKeeps(s: string)
    requires NoTripleNewline(s)
    ensures CollapseNewlines(s) == s
    decreases |s|
  {
    if |s| > 0 {
      if s[0] != '\n' {
        SuffixNoTriple(s, 1);
        CollapseNewlinesKeeps(s[1..]);
        assert [s[0]] + s[1..] == s;
      } else {
        var n := RunOf(s, '\n');
        assert |s| >= 3 ==> !(s[0] == '\n' && s[1] == '\n' && s[2] == '\n');
        assert n < 3;
        SuffixNoTriple(s, n);
        CollapseNewlinesKeeps(s[n..]);
        assert s[..n] + s[n..] == s;
      }
    }
  }

  /** Text with no tab and no double space passes through the blank collapse unchanged. */
  lemma {:induction false} CollapseBlanksKeeps(s: string)
    requires NoBlankRuns(s)
    ensures CollapseBlanks(s) == s
    decreases |s|
  {
    if |s| > 0 {
      assert NoBlankRuns(s[1..]) by {
        assert forall i :: 0 <= i < |s| - 1 ==> s[1..][i] == s[1 + i];
      }
      CollapseBlanksKeeps(s[1..]);
      if IsBlank(s[0]) {
        assert s[0] == ' ';
        assert |s| > 1 ==> s[1] != ' ' && s[1] != '\t';
        assert BlankRun(s) == 1;
      }
      assert [s[0]] + s[1..] == s;
    }
  }

  /** Tidying whitespace a second time changes nothing. */
  lemma NormalizeIdempotent(s: string)
    ensures Normalize(Normalize(s)) == Normalize(s)
  {
    var y := Normalize(s);
    CollapseNewlinesKeeps(y);
    CollapseBlanksKeeps(y);
    StripTrimmed(y);
  }

  /** The newline collapse keeps whether the text starts a word. */
  lemma CollapseNewlinesHead(s: string)
    ensures StartsWord(CollapseNewlines(s)) <==> StartsWord(s)
  {
    if |s| > 0 && s[0] != '\n' {
      assert CollapseNewlines(s)[0] == s[0];
    }
  }

  /** Collapsing newline runs keeps the words: only whitespace is rewritten. */
  lemma {:induction false} WordsCollapseNewlines(s: string)
    ensures Words(CollapseNewlines(s)) == Words(s)
    decreases |s|
  {
    if |s| > 0 {
      var r := CollapseNewlines(s);
      if s[0] != '\n' {
        var rest := CollapseNewlines(s[1..]);
        WordsCollapseNewlines(s[1..]);
        assert r == [s[0]] + rest;
        assert s == [s[0]] + s[1..];
        if IsSpace(s[0]) {
          WordsSpacePrefix([s[0]], rest);
          WordsSpacePrefix([s[0]], s[1..]);
        } else {
          CollapseNewlinesHead(s[1..]);
          WordsConsSame(s[0], rest, s[1..]);
        }
      } else {
        var n := RunOf(s, '\n');
        var head := if n >= 3 then "\n\n" else s[..n];
        var rest := CollapseNewlines(s[n..]);
        WordsCollapseNewlines(s[n..]);
        assert r == head + rest;
        WordsSpacePrefix(head, rest);
        assert AllSpace(s[..n]) by {
          assert forall i :: 0 <= i < n ==> s[..n][i] == s[i];
        }
        TakeDrop(s, n);
        WordsSpacePrefix(s[..n], s[n..]);
      }
    }
  }

  /** The blank collapse keeps whether the text starts a word. */
  lemma CollapseBlanksHead(s: string)
    ensures StartsWord(CollapseBlanks(s)) <==> StartsWord(s)
  {
    if |s| > 0 && !IsBlank(s[0]) {
      assert CollapseBlanks(s)[0] == s[0];
    }
  }

  /** Collapsing runs of spaces and tabs keeps the words. */
  lemma {:induction false} WordsCollapseBlanks(s: string)
    ensures Words(CollapseBlanks(s)) == Words(s)
    decreases |s|
  {
    if |s| > 0 {
      var r := CollapseBlanks(s);
      if IsBlank(s[0]) {
        var k := BlankRun(s);
        var rest := CollapseBlanks(s[k..]);
        WordsCollapseBlanks(s[k..]);
        assert r == " " + rest;
        WordsSpacePrefix(" ", rest);
        assert AllSpace(s[..k]) by {
          assert forall i :: 0 <= i < k ==> s[..k][i] == s[i];
        }
        TakeDrop(s, k);
        WordsSpacePrefix(s[..k], s[k..]);
      } else {
        var rest := CollapseBlanks(s[1..]);
        WordsCollapseBlanks(s[1..]);
        assert r == [s[0]] + rest;
        assert s == [s[0]] + s[1..];
        if IsSpace(s[0]) {
          WordsSpacePrefix([s[0]], rest);
          WordsSpacePrefix([s[0]], s[1..]);
        } else {
          CollapseBlanksHead(s[1..]);
          WordsConsSame(s[0], rest, s[1..]);
        }
      }
    }
  }

  /** Tidying whitespace keeps every word of the text, in order:
      `Normalize(s).split() == s.split()`. */
  lemma NormalizeWords(s: string)
    ensures Words(Normalize(s)) == Words(s)
  {
    var t := CollapseNewlines(s);
    WordsCollapseNewlines(s);
    WordsCollapseBlanks(t);
    WordsStrip(CollapseBlanks(t));
  }

  // ---------------------------------------------------------------------------
  // from container to text
  // ---------------------------------------------------------------------------

  /**
   * `_get_text_from_container`: the de-duplicated fragments separated by
   * blank lines, or, when no element gave a fragment, all of the container's
   * strings one per line; then whitespace tidied.
   */
  function ContainerText(c: Node): (text: string)
    ensures NoTripleNewline(text) && NoBlankRuns(text) && Trimmed(text)
  {
    var lines := Fragments(c);
    Normalize(if |lines| > 0 then Join(DedupAll(lines), "\n\n") else GetText(c, "\n"))
  }

  /**
   * What the fragments contribute: every kept fragment is the text of some
   * text element and is longer than 20 characters, and the text of every
   * text element longer than 20 characters occurs inside a kept fragment.
   */
  lemma KeptFragments(c: Node)
    ensures var els := FindAll(c, TagIn(TextTags));
      var kept := DedupAll(Fragments(c));
      && DedupFacts(kept, Fragments(c))
      && (forall s :: s in kept ==> |s| > MinFragment && exists i :: 0 <= i < |els| && GetText(els[i], " ") == s)
      && (forall i :: 0 <= i < |els| && |GetText(els[i], " ")| > MinFragment ==> Covered(GetText(els[i], " "), kept))
  {
    var lines := Fragments(c);
    var kept := DedupAll(lines);
    DedupAllFacts(lines);
    SubseqMembers(kept, lines);
  }

  /** The container's text has exactly the words of the kept fragments joined
      by blank lines, or, without fragments, of its strings one per line. */
  lemma ContainerWords(c: Node)
    ensures |Fragments(c)| > 0 ==> Words(ContainerText(c)) == Words(Join(DedupAll(Fragments(c)), "\n\n"))
    ensures |Fragments(c)| == 0 ==> Words(ContainerText(c)) == Words(GetText(c, "\n"))
  {
    var lines := Fragments(c);
    NormalizeWords(if |lines| > 0 then Join(DedupAll(lines), "\n\n") else GetText(c, "\n"));
  }

  /** A container without fragments yields its strings, one per line, tidied. */
  lemma ContainerFallback(c: Node)
    requires Fragments(c) == []
    ensures ContainerText(c) == Normalize(GetText(c, "\n"))
  {
  }

  /** `extract_article_text(html, url)` on the parsed page `root`. */
  function ExtractArticleText(root: Node, url: string): (text: string)
    ensures NoTripleNewline(text) && NoBlankRuns(text) && Trimmed(text)
  {
    ContainerText(Locate(Clean(root), url))
  }

  /** The extracted text is a fixed point of the whitespace tidying. */
  lemma ExtractedIsTidy(root: Node, url: string)
    ensures Normalize(ExtractArticleText(root, url)) == ExtractArticleText(root, url)
  {
    var t := ExtractArticleText(root, url);
    CollapseNewlinesKeeps(t);
    CollapseBlanksKeeps(t);
    StripTrimmed(t);
  }

  /**
   * `fetch_article`: `page` is the parsed response, `None` when the request
   * failed. The result is the extracted text, or `None` when the request
   * failed or nothing was extracted.
   */
  function FetchArticle(page: Option<Node>, url: string): (r: Option<string>)
    ensures r.Some? ==> page.Some? && r.value == ExtractArticleText(page.value, url) && |r.value| > 0
    ensures r.None? <==> page.None? || ExtractArticleText(page.value, url) == []
  {
    match page
    case None => None
    case Some(root) =>
      var text := ExtractArticleText(root, url);
      if |text| > 0 then Some(text) else None
  }
}
