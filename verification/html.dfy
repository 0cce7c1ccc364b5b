/**
 * The parsed page as BeautifulSoup exposes it: a tree of elements, text
 * strings and comments; `find` / `find_all` over the descendants in document
 * order; `get_text(separator, strip=True)`; and the boilerplate stripping
 * done before any content is looked for.
 */
module Html {
  import opened Wrappers
  import opened Text
  import opened Seqs

  /**
   * A node of the parse tree. Only the attributes the extractor consults are
   * kept; an absent attribute is the empty string (or no classes), which no
   * lookup below can tell apart from a present empty one.
   */
  datatype Node =
    | Element(tag: string, id: string, classes: seq<string>, role: string, children: seq<Node>)
    | TextNode(text: string)
    | CommentNode(text: string)

  /** The nodes of a forest in document order: each node, then its descendants. */
  function Preorder(ns: seq<Node>): seq<Node>
    decreases ns
  {
    if |ns| == 0 then [] else Subtree(ns[0]) + Preorder(ns[1..])
  }

  /** A node followed by all of its descendants in document order. */
  function Subtree(n: Node): seq<Node>
    decreases n
  {
    match n
    case Element(_, _, _, _, cs) => [n] + Preorder(cs)
    case _ => [n]
  }

  /** `tag.descendants`: everything strictly below `n`. */
  function Descendants(n: Node): seq<Node> {
    if n.Element? then Preorder(n.children) else []
  }

  lemma {:induction false} PreorderAppend(a: seq<Node>, b: seq<Node>)
    ensures Preorder(a + b) == Preorder(a) + Preorder(b)
    decreases |a|
  {
    if |a| > 0 {
      assert (a + b)[0] == a[0] && (a + b)[1..] == a[1..] + b;
      PreorderAppend(a[1..], b);
      assert Preorder(a + b) == Subtree(a[0]) + Preorder(a[1..] + b);
    } else {
      assert a + b == b;
    }
  }

  // ---------------------------------------------------------------------------
  // find / find_all
  // ---------------------------------------------------------------------------

  /** The tag-and-attribute filters the extractor hands to `find` and `find_all`. */
  datatype Rule =
    | TagIs(name: string)                          // find("article")
    | TagIn(names: set<string>)                    // find_all(["p", "h1", ...])
    | DivWithId(id: string)                        // find("div", id="...")
    | DivWithRole(role: string)                    // find("div", {"role": "..."})
    | DivClassLike(alternatives: seq<string>)      // find("div", class_=re.compile(..., re.I))
    | DivIdLike(alternatives: seq<string>)         // find("div", id=re.compile(..., re.I))

  /**
   * Whether element `n` passes `rule`. A class regex is tried against each
   * class; the patterns hold no spaces, so trying the space-joined class
   * string as well finds nothing more.
   */
  predicate Matches(rule: Rule, n: Node) {
    n.Element? &&
    match rule
    case TagIs(name) => n.tag == name
    case TagIn(names) => n.tag in names
    case DivWithId(id) => n.tag == "div" && n.id == id
    case DivWithRole(role) => n.tag == "div" && n.role == role
    case DivClassLike(alts) => n.tag == "div" && exists c :: c in n.classes && SearchCI(c, alts)
    case DivIdLike(alts) => n.tag == "div" && SearchCI(n.id, alts)
  }

  /** The first node of `xs` that passes `rule`: the reference for `find`. */
  function First(xs: seq<Node>, rule: Rule): (r: Option<Node>)
    ensures r.None? <==> forall i :: 0 <= i < |xs| ==> !Matches(rule, xs[i])
    ensures r.Some? ==> exists i :: 0 <= i < |xs| && xs[i] == r.value && Matches(rule, xs[i])
                                 && forall j :: 0 <= j < i ==> !Matches(rule, xs[j])
  {
    if |xs| == 0 then None
    else if Matches(rule, xs[0]) then Some(xs[0])
    else
      var r := First(xs[1..], rule);
      assert r.Some? ==> exists i :: 0 <= i < |xs| - 1 && xs[1..][i] == r.value && Matches(rule, xs[1..][i])
                                 && forall j :: 0 <= j < i ==> !Matches(rule, xs[1..][j]);
      r
  }

  lemma {:induction false} FirstAppend(a: seq<Node>, b: seq<Node>, rule: Rule)
    ensures First(a + b, rule) == if First(a, rule).Some? then First(a, rule) else First(b, rule)
    decreases |a|
  {
    if |a| > 0 {
      assert (a + b)[0] == a[0] && (a + b)[1..] == a[1..] + b;
      FirstAppend(a[1..], b, rule);
    } else {
      assert a + b == b;
    }
  }

  /** The search `find` performs, one sibling list at a time. */
  function FindIn(ns: seq<Node>, rule: Rule): Option<Node>
    decreases ns
  {
    if |ns| == 0 then None
    else
      match FindAt(ns[0], rule)
      case Some(x) => Some(x)
      case None => FindIn(ns[1..], rule)
  }

  function FindAt(n: Node, rule: Rule): Option<Node>
    decreases n
  {
    if Matches(rule, n) then Some(n)
    else
      match n
      case Element(_, _, _, _, cs) => FindIn(cs, rule)
      case _ => None
  }

  /** `n.find(...)`: the first descendant in document order that passes `rule`. */
  function Find(n: Node, rule: Rule): Option<Node> {
    if n.Element? then FindIn(n.children, rule) else None
  }

  /** The tree search returns exactly the first passing node of the document-order listing. */
  lemma {:induction false} FindInIsFirst(ns: seq<Node>, rule: Rule)
    ensures FindIn(ns, rule) == First(Preorder(ns), rule)
    decreases ns
  {
    if |ns| > 0 {
      FindAtIsFirst(ns[0], rule);
      FindInIsFirst(ns[1..], rule);
      FirstAppend(Subtree(ns[0]), Preorder(ns[1..]), rule);
    }
  }

  lemma {:induction false} FindAtIsFirst(n: Node, rule: Rule)
    ensures FindAt(n, rule) == First(Subtree(n), rule)
    decreases n
  {
    if n.Element? {
      FindInIsFirst(n.children, rule);
      FirstAppend([n], Preorder(n.children), rule);
    }
  }

  /**
   * `find` returns `Some(x)` exactly when `x` is a descendant that passes
   * `rule` and no earlier descendant does, and `None` exactly when no
   * descendant passes.
   */
  lemma FindSpec(n: Node, rule: Rule)
    ensures var d := Descendants(n);
      && (Find(n, rule).None? <==> forall i :: 0 <= i < |d| ==> !Matches(rule, d[i]))
      && (Find(n, rule).Some? ==>
            exists i :: 0 <= i < |d| && d[i] == Find(n, rule).value && Matches(rule, d[i])
                     && forall j :: 0 <= j < i ==> !Matches(rule, d[j]))
  {
    if n.Element? {
      FindInIsFirst(n.children, rule);
      assert Find(n, rule) == First(Descendants(n), rule);
    }
  }

  /** The nodes of `xs` that pass `rule`, in order. */
  function Select(xs: seq<Node>, rule: Rule): (r: seq<Node>)
    ensures forall x :: x in r <==> x in xs && Matches(rule, x)
    ensures IsSubseq(r, xs)
  {
    if |xs| == 0 then []
    else
      var rest := Select(xs[1..], rule);
      assert xs == [xs[0]] + xs[1..];
      if Matches(rule, xs[0]) then
        SubseqCons(xs[0], rest, xs[1..]);
        [xs[0]] + rest
      else
        SubseqSkip(xs[0], rest, xs[1..]);
        rest
  }

  /** Each matching node is kept as often as it occurs, and no other node is kept. */
  lemma {:induction false} SelectCount(xs: seq<Node>, rule: Rule)
    ensures forall x :: multiset(Select(xs, rule))[x] == if Matches(rule, x) then multiset(xs)[x] else 0
  {
    if |xs| > 0 {
      SelectCount(xs[1..], rule);
      assert xs == [xs[0]] + xs[1..];
    }
  }

  /** `n.find_all(...)`. */
  function FindAll(n: Node, rule: Rule): seq<Node> {
    Select(Descendants(n), rule)
  }

  // ---------------------------------------------------------------------------
  // get_text
  // ---------------------------------------------------------------------------

  /**
   * The strings `get_text(strip=True)` collects from a node listing: every
   * text string, stripped, dropped when nothing is left; comments are not
   * collected.
   */
  function StrippedStrings(xs: seq<Node>): (r: seq<string>)
    ensures forall i :: 0 <= i < |r| ==> r[i] != [] && Trimmed(r[i])
  {
    if |xs| == 0 then []
    else
      var rest := StrippedStrings(xs[1..]);
      if xs[0].TextNode? && Strip(xs[0].text) != [] then [Strip(xs[0].text)] + rest else rest
  }

  lemma {:induction false} StrippedStringsAppend(a: seq<Node>, b: seq<Node>)
    ensures StrippedStrings(a + b) == StrippedStrings(a) + StrippedStrings(b)
    decreases |a|
  {
    if |a| > 0 {
      assert (a + b)[0] == a[0] && (a + b)[1..] == a[1..] + b;
      StrippedStringsAppend(a[1..], b);
    } else {
      assert a + b == b;
    }
  }

  /** `n.get_text(separator=sep, strip=True)`. */
  function GetText(n: Node, sep: string): string {
    Join(StrippedStrings(Descendants(n)), sep)
  }

  /** The text is empty exactly when no descendant string has any non-whitespace. */
  lemma GetTextEmptyIff(n: Node, sep: string)
    ensures GetText(n, sep) == [] <==> StrippedStrings(Descendants(n)) == []
  {
    var parts := StrippedStrings(Descendants(n));
    if |parts| > 0 {
      JoinLength(parts, sep);
      assert parts[0] != [];
    }
  }

  // ---------------------------------------------------------------------------
  // _clean_soup
  // ---------------------------------------------------------------------------

  /** STRIP_TAGS. */
  const StripTags: set<string> :=
    {"nav", "header", "footer", "aside", "script", "style", "noscript", "iframe", "form", "button", "svg"}

  /** What `_clean_soup` removes: every comment and every element named in STRIP_TAGS. */
  predicate Boilerplate(n: Node) {
    n.CommentNode? || (n.Element? && n.tag in StripTags)
  }

  /** No node of the forest, at any depth, is boilerplate. */
  predicate NoBoilerplate(ns: seq<Node>) {
    forall i :: 0 <= i < |Preorder(ns)| ==> !Boilerplate(Preorder(ns)[i])
  }

  /** The forest with every boilerplate node removed together with its subtree. */
  function CleanAll(ns: seq<Node>): seq<Node>
    decreases ns
  {
    if |ns| == 0 then []
    else if Boilerplate(ns[0]) then CleanAll(ns[1..])
    else [CleanNode(ns[0])] + CleanAll(ns[1..])
  }

  function CleanNode(n: Node): Node
    decreases n
  {
    match n
    case Element(t, i, c, r, cs) => Element(t, i, c, r, CleanAll(cs))
    case _ => n
  }

  /**
   * `_clean_soup(soup)` on the document root (which is never itself
   * boilerplate). Removing the comments first and then each tag name in turn
   * leaves the same tree as removing them all at once, since a removal never
   * creates or renames another node.
   */
  function Clean(root: Node): Node {
    CleanNode(root)
  }

  /** Cleaning leaves no boilerplate anywhere in the tree. */
  lemma {:induction false} CleanAllRemoves(ns: seq<Node>)
    ensures NoBoilerplate(CleanAll(ns))
    decreases ns
  {
    if |ns| > 0 {
      CleanAllRemoves(ns[1..]);
      if !Boilerplate(ns[0]) {
        CleanNodeRemoves(ns[0]);
        PreorderAppend([CleanNode(ns[0])], CleanAll(ns[1..]));
        assert Preorder([CleanNode(ns[0])]) == Subtree(CleanNode(ns[0])) by {
          assert [CleanNode(ns[0])][1..] == [];
        }
      }
    }
  }

  lemma {:induction false} CleanNodeRemoves(n: Node)
    requires !Boilerplate(n)
    ensures forall i :: 0 <= i < |Subtree(CleanNode(n))| ==> !Boilerplate(Subtree(CleanNode(n))[i])
    decreases n
  {
    if n.Element? {
      CleanAllRemoves(n.children);
    }
  }

  /** A forest is left unchanged by cleaning exactly when it holds no boilerplate. */
  lemma {:induction false} CleanAllFixedIff(ns: seq<Node>)
    ensures CleanAll(ns) == ns <==> NoBoilerplate(ns)
    decreases ns
  {
    CleanAllRemoves(ns);
    if NoBoilerplate(ns) {
      CleanAllKeeps(ns);
    }
  }

  lemma {:induction false} CleanAllKeeps(ns: seq<Node>)
    requires NoBoilerplate(ns)
    ensures CleanAll(ns) == ns
    decreases ns
  {
    if |ns| > 0 {
      PreorderAppend([ns[0]], ns[1..]);
      assert [ns[0]] + ns[1..] == ns;
      assert Preorder([ns[0]]) == Subtree(ns[0]) by {
        assert [ns[0]][1..] == [];
      }
      assert Subtree(ns[0])[0] == ns[0];
      assert Preorder(ns)[0] == ns[0];
      assert NoBoilerplate(ns[1..]) by {
        forall i | 0 <= i < |Preorder(ns[1..])|
          ensures !Boilerplate(Preorder(ns[1..])[i])
        {
          assert Preorder(ns[1..])[i] == Preorder(ns)[|Subtree(ns[0])| + i];
        }
      }
      CleanAllKeeps(ns[1..]);
      if ns[0].Element? {
        assert NoBoilerplate(ns[0].children) by {
          forall i | 0 <= i < |Preorder(ns[0].children)|
            ensures !Boilerplate(Preorder(ns[0].children)[i])
          {
            assert Preorder(ns[0].children)[i] == Preorder(ns)[1 + i];
          }
        }
        CleanAllKeeps(ns[0].children);
      }
      assert CleanNode(ns[0]) == ns[0];
    }
  }

  /** Cleaning twice is cleaning once. */
  lemma CleanIdempotent(root: Node)
    ensures Clean(Clean(root)) == Clean(root)
  {
    if root.Element? {
      CleanAllRemoves(root.children);
      CleanAllKeeps(CleanAll(root.children));
    }
  }

  /** The texts of the text strings of a node listing, in order. */
  function Texts(xs: seq<Node>): seq<string> {
    if |xs| == 0 then []
    else if xs[0].TextNode? then [xs[0].text] + Texts(xs[1..])
    else Texts(xs[1..])
  }

  lemma {:induction false} TextsAppend(a: seq<Node>, b: seq<Node>)
    ensures Texts(a + b) == Texts(a) + Texts(b)
    decreases |a|
  {
    if |a| > 0 {
      assert (a + b)[0] == a[0] && (a + b)[1..] == a[1..] + b;
      TextsAppend(a[1..], b);
    } else {
      assert a + b == b;
    }
  }

  /**
   * Cleaning only deletes: the text strings left in the cleaned forest are
   * the original's, in their original order, minus those of removed subtrees.
   */
  lemma {:induction false} CleanAllTexts(ns: seq<Node>)
    ensures IsSubseq(Texts(Preorder(CleanAll(ns))), Texts(Preorder(ns)))
    decreases ns
  {
    if |ns| > 0 {
      var n := ns[0];
      CleanAllTexts(ns[1..]);
      TextsAppend(Subtree(n), Preorder(ns[1..]));
      if Boilerplate(n) {
        SubseqEmptyLeft(Texts(Subtree(n)));
        SubseqConcat([], Texts(Subtree(n)), Texts(Preorder(CleanAll(ns[1..]))), Texts(Preorder(ns[1..])));
        assert [] + Texts(Preorder(CleanAll(ns[1..]))) == Texts(Preorder(CleanAll(ns[1..])));
      } else {
        CleanNodeTexts(n);
        PreorderAppend([CleanNode(n)], CleanAll(ns[1..]));
        assert Preorder([CleanNode(n)]) == Subtree(CleanNode(n)) by {
          assert [CleanNode(n)][1..] == [];
        }
        TextsAppend(Subtree(CleanNode(n)), Preorder(CleanAll(ns[1..])));
        SubseqConcat(Texts(Subtree(CleanNode(n))), Texts(Subtree(n)),
                     Texts(Preorder(CleanAll(ns[1..]))), Texts(Preorder(ns[1..])));
      }
    }
  }

  lemma {:induction false} CleanNodeTexts(n: Node)
    ensures IsSubseq(Texts(Subtree(CleanNode(n))), Texts(Subtree(n)))
    decreases n
  {
    if n.Element? {
      CleanAllTexts(n.children);
      TextsAppend([n], Preorder(n.children));
      TextsAppend([CleanNode(n)], Preorder(CleanAll(n.children)));
      assert Texts([n]) == [] && Texts([CleanNode(n)]) == [];
    } else {
      SubseqRefl(Texts(Subtree(n)));
    }
  }

  lemma SubseqEmptyLeft(b: seq<string>)
    ensures IsSubseq([], b)
  {
  }
}
