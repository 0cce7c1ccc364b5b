/**
 * The chat bot's pure helpers: the reply-length limit, retrieval result
 * zipping, the context block sent to the language model, source attribution,
 * the source catalogue and the statistics line.
 */
module Bot {
  import opened Wrappers
  import opened Text
  import opened Records

  // ---------------------------------------------------------------------------
  // The message-length limit
  // ---------------------------------------------------------------------------

  const MaxMessage: nat := 4096
  const KeptChars: nat := 4090

  /** Longer than the limit: keep the first 4090 characters and add `"..."`. */
  function Truncate(s: string): (r: string)
    ensures |r| <= MaxMessage
    ensures r == s <==> |s| <= MaxMessage
    ensures |s| > MaxMessage ==> |r| == KeptChars + 3 && r[..KeptChars] == s[..KeptChars]
  {
    if |s| > MaxMessage then s[..KeptChars] + "..." else s
  }

  /** Truncating twice is truncating once. */
  lemma TruncateIdempotent(s: string)
    ensures Truncate(Truncate(s)) == Truncate(s)
  {
  }

  /** What a truncated reply shows is the start of the full reply, except for
      the trailing `"..."` marker. */
  lemma TruncatePrefix(s: string)
    ensures Truncate(s) == s || (Truncate(s) == s[..KeptChars] + "..." && KeptChars < |s|)
  {
  }

  // ---------------------------------------------------------------------------
  // Retrieval results
  // ---------------------------------------------------------------------------

  /** One retrieved chunk, as the bot keeps it. */
  datatype Hit = Hit(text: string, sourceName: string, sourceUrl: string, distance: real)

  function Min(a: nat, b: nat): nat {
    if a <= b then a else b
  }

  /** `zip` over the query's documents, metadatas and distances; a missing
      name or URL reads as `""`. */
  function Zip(docs: seq<string>, metas: seq<Metadata>, dists: seq<real>): (hits: seq<Hit>)
    ensures |hits| == Min(|docs|, Min(|metas|, |dists|))
    decreases |docs|
  {
    if |docs| == 0 || |metas| == 0 || |dists| == 0 then []
    else
      [Hit(docs[0], metas[0].sourceName.GetOr(""), metas[0].sourceUrl.GetOr(""), dists[0])]
        + Zip(docs[1..], metas[1..], dists[1..])
  }

  /** Hit `k` is built from the `k`-th entry of each list. */
  lemma {:induction false} ZipAt(docs: seq<string>, metas: seq<Metadata>, dists: seq<real>, k: nat)
    requires k < |Zip(docs, metas, dists)|
    ensures Zip(docs, metas, dists)[k] ==
      Hit(docs[k], metas[k].sourceName.GetOr(""), metas[k].sourceUrl.GetOr(""), dists[k])
    decreases k
  {
    if k > 0 {
      ZipAt(docs[1..], metas[1..], dists[1..], k - 1);
    }
  }

  // ---------------------------------------------------------------------------
  // The prompt's context block
  // ---------------------------------------------------------------------------

  const ContextSeparator: string := "\n\n---\n\n"

  function ContextEntry(h: Hit): string {
    "[Source: " + h.sourceName + "]\n" + h.text
  }

  function ContextEntries(hits: seq<Hit>): (es: seq<string>)
    ensures |es| == |hits|
    ensures forall k :: 0 <= k < |hits| ==> es[k] == ContextEntry(hits[k])
  {
    seq(|hits|, k requires 0 <= k < |hits| => ContextEntry(hits[k]))
  }

  /** The chunks, each under its `[Source: name]` tag, in retrieval order,
      separated by rules. */
  function ContextBlock(hits: seq<Hit>): string {
    Join(ContextEntries(hits), ContextSeparator)
  }

  /** One more chunk adds a rule and its entry at the end; nothing else moves. */
  lemma ContextBlockAppend(hits: seq<Hit>, h: Hit)
    ensures ContextBlock(hits + [h]) ==
      if |hits| == 0 then ContextEntry(h) else ContextBlock(hits) + ContextSeparator + ContextEntry(h)
  {
    assert ContextEntries(hits + [h]) == ContextEntries(hits) + [ContextEntry(h)];
    if |hits| > 0 {
      JoinAppend(ContextEntries(hits), ContextEntry(h), ContextSeparator);
    }
  }

  /** The block's length: every entry plus one rule between neighbours. */
  lemma ContextBlockLength(hits: seq<Hit>)
    requires |hits| > 0
    ensures |ContextBlock(hits)| == TotalLength(ContextEntries(hits)) + (|hits| - 1) * |ContextSeparator|
  {
    JoinLength(ContextEntries(hits), ContextSeparator);
  }

  /** The user message sent to the model. */
  function UserMessage(question: string, hits: seq<Hit>): string {
    "Context chunks (from verified sources):\n\n" + ContextBlock(hits) + "\n\nQuestion: " + question
  }

  /** The middle of a concatenation occurs in it. */
  lemma MiddleOccurs(a: string, b: string, c: string)
    ensures IsSubstring(b, a + b + c)
  {
    var s := a + b + c;
    assert s[|a|..|a| + |b|] == b;
    SliceIsSubstring(s, |a|, |a| + |b|);
  }

  /** The last chunk's entry ends the block. */
  lemma ContextHasLast(init: seq<Hit>, last: Hit)
    ensures IsSubstring(ContextEntry(last), ContextBlock(init + [last]))
  {
    ContextBlockAppend(init, last);
    if |init| == 0 {
      SubstringRefl(ContextEntry(last));
    } else {
      MiddleOccurs(ContextBlock(init) + ContextSeparator, ContextEntry(last), "");
      assert ContextBlock(init) + ContextSeparator + ContextEntry(last) + "" == ContextBlock(init + [last]);
    }
  }

  /** A prefix occurs in the whole. */
  lemma PrefixOccurs(a: string, b: string)
    ensures IsSubstring(a, a + b)
  {
    assert (a + b)[0..|a|] == a;
    SliceIsSubstring(a + b, 0, |a|);
  }

  /** What occurs in the block still occurs after one more chunk. */
  lemma ContextKeeps(init: seq<Hit>, last: Hit, e: string)
    requires IsSubstring(e, ContextBlock(init)) && |init| > 0
    ensures IsSubstring(e, ContextBlock(init + [last]))
  {
    var block := ContextBlock(init);
    var more := ContextSeparator + ContextEntry(last);
    ContextBlockAppend(init, last);
    AppendAssoc(block, ContextSeparator, ContextEntry(last));
    PrefixOccurs(block, more);
    SubstringTrans(e, block, block + more);
  }

  /** Every retrieved chunk reaches the block, under its source tag. */
  lemma {:induction false} ContextHasEntry(hits: seq<Hit>, k: nat)
    requires k < |hits|
    ensures IsSubstring(ContextEntry(hits[k]), ContextBlock(hits))
    decreases |hits|
  {
    var init := hits[..|hits| - 1];
    var last := hits[|hits| - 1];
    assert hits == init + [last];
    if k == |hits| - 1 {
      ContextHasLast(init, last);
    } else {
      assert hits[k] == init[k];
      ContextHasEntry(init, k);
      ContextKeeps(init, last, ContextEntry(hits[k]));
    }
  }

  /** The message carries every retrieved chunk with its source, and ends
      with the question. */
  lemma UserMessageSpec(question: string, hits: seq<Hit>)
    ensures forall k :: 0 <= k < |hits| ==> IsSubstring(ContextEntry(hits[k]), UserMessage(question, hits))
    ensures |question| <= |UserMessage(question, hits)|
    ensures UserMessage(question, hits)[|UserMessage(question, hits)| - |question|..] == question
  {
    var head := "Context chunks (from verified sources):\n\n";
    var tail := "\n\nQuestion: " + question;
    assert UserMessage(question, hits) == head + ContextBlock(hits) + tail;
    MiddleOccurs(head, ContextBlock(hits), tail);
    forall k | 0 <= k < |hits|
      ensures IsSubstring(ContextEntry(hits[k]), UserMessage(question, hits))
    {
      ContextHasEntry(hits, k);
      SubstringTrans(ContextEntry(hits[k]), ContextBlock(hits), UserMessage(question, hits));
    }
  }

  // ---------------------------------------------------------------------------
  // Replies
  // ---------------------------------------------------------------------------

  const SourcesPrefix: string := "\n\n\U{1F4DA} Sources: "

  function SourceNames(hits: seq<Hit>): (names: seq<string>)
    ensures |names| == |hits|
    ensures forall k :: 0 <= k < |hits| ==> names[k] == hits[k].sourceName
  {
    seq(|hits|, k requires 0 <= k < |hits| => hits[k].sourceName)
  }

  /** `"\n\n📚 Sources: " + ", ".join(sorted(set(names)))`. */
  function SourcesLine(hits: seq<Hit>): string {
    SourcesPrefix + Join(SortedSet(SourceNames(hits)), ", ")
  }

  /** The attribution lists each source of the hits once, in increasing
      order: it is the prefix followed by any such listing. */
  lemma SourcesLineSpec(hits: seq<Hit>, listing: seq<string>)
    requires StrictlySorted(listing)
    requires forall x :: x in listing <==> exists k :: 0 <= k < |hits| && hits[k].sourceName == x
    ensures SourcesLine(hits) == SourcesPrefix + Join(listing, ", ")
  {
    var names := SourceNames(hits);
    assert Elements(listing) == Elements(names) by {
      forall x
        ensures x in Elements(listing) <==> x in Elements(names)
      {
        if x in names {
          var k :| 0 <= k < |names| && names[k] == x;
          assert hits[k].sourceName == x;
        }
      }
    }
    SortedUnique(SortedSet(names), listing);
  }

  /** Hits from a single source are attributed to it alone. */
  lemma SingleSourceLine(hits: seq<Hit>, name: string)
    requires |hits| > 0
    requires forall k :: 0 <= k < |hits| ==> hits[k].sourceName == name
    ensures SourcesLine(hits) == SourcesPrefix + name
  {
    assert hits[0].sourceName == name;
    SourcesLineSpec(hits, [name]);
  }

  const NoInfoReply: string :=
    "I couldn't find any relevant " + "information in my sources. " + "Try rephrasing your question?"
  const NoInfoButtonReply: string := "I couldn't find relevant info. " + "Try rephrasing?"

  /** The model's answer with the attribution appended, cut to the limit. */
  function AnswerReply(answer: string, hits: seq<Hit>): (r: string)
    ensures |r| <= MaxMessage
  {
    Truncate(answer + SourcesLine(hits))
  }

  /** A short enough reply carries the whole answer and attribution; a long
      one keeps the answer's start. */
  lemma AnswerReplyShape(answer: string, hits: seq<Hit>)
    ensures |answer + SourcesLine(hits)| <= MaxMessage ==>
      AnswerReply(answer, hits) == answer + SourcesLine(hits)
    ensures |answer| >= KeptChars ==> AnswerReply(answer, hits)[..KeptChars] == answer[..KeptChars]
  {
    var full := answer + SourcesLine(hits);
    if |answer| >= KeptChars {
      assert full[..KeptChars] == answer[..KeptChars];
    }
  }

  /** A text message: nothing happens unless it has non-whitespace content;
      the question is the stripped text. */
  function Question(text: string): (q: Option<string>)
    ensures q.None? <==> AllSpace(text)
    ensures q.Some? ==> q.value != "" && Trimmed(q.value) && q.value == Strip(text)
  {
    StripEmptyIff(text);
    var stripped := Strip(text);
    if stripped == "" then None else Some(stripped)
  }

  /** The reply to a question: the no-information text when retrieval found
      nothing, otherwise the truncated answer with attribution. */
  function QuestionReply(hits: seq<Hit>, answer: string, fromButton: bool): (r: string)
    ensures |r| <= MaxMessage
    ensures |hits| == 0 <==> r == (if fromButton then NoInfoButtonReply else NoInfoReply)
  {
    if |hits| == 0 then (if fromButton then NoInfoButtonReply else NoInfoReply)
    else
      var r := AnswerReply(answer, hits);
      assert r != NoInfoReply && r != NoInfoButtonReply by {
        AnswerHasSources(answer, hits);
      }
      r
  }

  /** A reply to found hits is never one of the no-information texts: it
      holds the attribution's emoji or has the truncated length. */
  lemma AnswerHasSources(answer: string, hits: seq<Hit>)
    requires |hits| > 0
    ensures AnswerReply(answer, hits) != NoInfoReply
    ensures AnswerReply(answer, hits) != NoInfoButtonReply
  {
    var full := answer + SourcesLine(hits);
    var r := AnswerReply(answer, hits);
    if |full| <= MaxMessage {
      assert r == full;
      assert full[|answer| + 2] == SourcesPrefix[2];
      EmojiNotInNoInfo();
      EmojiNotInButtonNoInfo();
    } else {
      assert |r| == KeptChars + 3;
    }
  }

  /** The no-information texts do not carry the attribution's emoji. */
  lemma EmojiNotInNoInfo()
    ensures SourcesPrefix[2] !in NoInfoReply
  {
    assert SourcesPrefix[2] == '\U{1F4DA}';
  }

  lemma EmojiNotInButtonNoInfo()
    ensures SourcesPrefix[2] !in NoInfoButtonReply
  {
    assert SourcesPrefix[2] == '\U{1F4DA}';
  }

  // ---------------------------------------------------------------------------
  // Buttons
  // ---------------------------------------------------------------------------

  datatype Action = ShowSources | Ask(question: string)

  /** `s.removeprefix(p)`. */
  function RemovePrefix(s: string, p: string): (r: string)
    ensures r == s || s == p + r
    ensures |p| <= |s| && s[..|p|] == p ==> s == p + r
    ensures !(|p| <= |s| && s[..|p|] == p) ==> r == s
  {
    if |p| <= |s| && s[..|p|] == p then s[|p|..] else s
  }

  const QuestionTag: string := "q:"

  /** The callback data of an inline button: the catalogue button, or a
      question with one leading `"q:"` removed. */
  function ButtonAction(data: string): Action {
    if data == "cmd:sources" then ShowSources else Ask(RemovePrefix(data, QuestionTag))
  }

  /** A question button round-trips: tagging a question and pressing the
      button asks exactly that question, one tag removed. */
  lemma ButtonQuestion(q: string)
    requires QuestionTag + q != "cmd:sources"
    ensures ButtonAction(QuestionTag + q) == Ask(q)
  {
    assert (QuestionTag + q)[..2] == QuestionTag;
    assert (QuestionTag + q)[2..] == q;
  }

  /** Data without the tag is asked as it is. */
  lemma ButtonUntagged(data: string)
    requires data != "cmd:sources"
    requires |data| < 2 || data[..2] != QuestionTag
    ensures ButtonAction(data) == Ask(data)
  {
  }

  // ---------------------------------------------------------------------------
  // The source catalogue
  // ---------------------------------------------------------------------------

  /** `m.get("source_name", "unknown")`. */
  function CatalogName(m: Metadata): string {
    m.sourceName.GetOr("unknown")
  }

  /** `m.get("source_url", "")`. */
  function CatalogUrl(m: Metadata): string {
    m.sourceUrl.GetOr("")
  }

  /** The `seen` dict after the loop: a name is recorded with the URL of its
      first record that has one. */
  function Seen(metas: seq<Metadata>): map<string, string>
    decreases |metas|
  {
    if |metas| == 0 then map[]
    else
      var seen := Seen(metas[..|metas| - 1]);
      var m := metas[|metas| - 1];
      if CatalogName(m) !in seen && CatalogUrl(m) != "" then seen[CatalogName(m) := CatalogUrl(m)]
      else seen
  }

  /** Reference: the URL of the first record of `name` that has a URL. */
  function FirstUrl(metas: seq<Metadata>, name: string): Option<string>
    decreases |metas|
  {
    if |metas| == 0 then None
    else if CatalogName(metas[0]) == name && CatalogUrl(metas[0]) != "" then Some(CatalogUrl(metas[0]))
    else FirstUrl(metas[1..], name)
  }

  lemma {:induction false} FirstUrlAppend(metas: seq<Metadata>, m: Metadata, name: string)
    ensures FirstUrl(metas + [m], name) ==
      if FirstUrl(metas, name).Some? then FirstUrl(metas, name)
      else if CatalogName(m) == name && CatalogUrl(m) != "" then Some(CatalogUrl(m))
      else None
    decreases |metas|
  {
    if |metas| == 0 {
      assert [m][1..] == [];
    } else {
      assert (metas + [m])[1..] == metas[1..] + [m];
      FirstUrlAppend(metas[1..], m, name);
    }
  }

  /** The catalogue lists a name exactly when one of its records has a URL,
      and with the first such URL. */
  lemma {:induction false} SeenSpec(metas: seq<Metadata>, name: string)
    ensures name in Seen(metas) <==> FirstUrl(metas, name).Some?
    ensures name in Seen(metas) ==> Seen(metas)[name] == FirstUrl(metas, name).value
    decreases |metas|
  {
    if |metas| > 0 {
      var init := metas[..|metas| - 1];
      var m := metas[|metas| - 1];
      assert metas == init + [m];
      SeenSpec(init, name);
      FirstUrlAppend(init, m, name);
    }
  }

  /** The names of the records that have a URL, in store order. */
  function WithUrl(metas: seq<Metadata>): (names: seq<string>)
    decreases |metas|
  {
    if |metas| == 0 then []
    else
      var init := WithUrl(metas[..|metas| - 1]);
      var m := metas[|metas| - 1];
      if CatalogUrl(m) != "" then init + [CatalogName(m)] else init
  }

  lemma {:induction false} WithUrlKeys(metas: seq<Metadata>)
    ensures Elements(WithUrl(metas)) == Seen(metas).Keys
    decreases |metas|
  {
    if |metas| > 0 {
      WithUrlKeys(metas[..|metas| - 1]);
      var init := WithUrl(metas[..|metas| - 1]);
      var m := metas[|metas| - 1];
      assert Elements(init + [CatalogName(m)]) == Elements(init) + {CatalogName(m)};
    }
  }

  /** The catalogue's names, in increasing order (`sorted(seen.items())`;
      names are distinct, so pairs sort by name). */
  function CatalogNames(metas: seq<Metadata>): (names: seq<string>)
    ensures StrictlySorted(names)
    ensures Elements(names) == Seen(metas).Keys
  {
    WithUrlKeys(metas);
    SortedSet(WithUrl(metas))
  }

  /** `f"📚 Knowledge Base — {len(seen)} verified sources\n\n"`. */
  function CatalogHeader(count: nat): string {
    "\U{1F4DA} Knowledge Base \U{2014} " + Decimal(count) + " verified sources\n\n"
  }

  function CatalogLine(name: string, url: string): string {
    "- " + name + "\n  " + url + "\n\n"
  }

  function CatalogLines(metas: seq<Metadata>): (lines: seq<string>)
    ensures |lines| == |CatalogNames(metas)|
  {
    var names := CatalogNames(metas);
    var seen := Seen(metas);
    seq(|names|, k requires 0 <= k < |names| =>
      assert names[k] in Elements(names);
      CatalogLine(names[k], seen[names[k]]))
  }

  /** The `/sources` reply (and the catalogue button's). */
  function CatalogText(metas: seq<Metadata>): (r: string)
    ensures |r| <= MaxMessage
  {
    Truncate(CatalogHeader(|Seen(metas)|) + Concat(CatalogLines(metas)))
  }

  /** Every catalogue line is one name with its first URL, in increasing name
      order, one line per catalogued name: the count in the header is the
      number of lines. */
  lemma CatalogSpec(metas: seq<Metadata>)
    ensures |CatalogLines(metas)| == |Seen(metas)|
    ensures forall k :: 0 <= k < |CatalogLines(metas)| ==>
      FirstUrl(metas, CatalogNames(metas)[k]).Some? &&
      CatalogLines(metas)[k] == CatalogLine(CatalogNames(metas)[k], FirstUrl(metas, CatalogNames(metas)[k]).value)
    ensures forall i, j :: 0 <= i < j < |CatalogNames(metas)| ==> Less(CatalogNames(metas)[i], CatalogNames(metas)[j])
  {
    var names := CatalogNames(metas);
    SortedDistinct(names);
    DistinctCard(names);
    forall k | 0 <= k < |names|
      ensures FirstUrl(metas, names[k]).Some? &&
        CatalogLines(metas)[k] == CatalogLine(names[k], FirstUrl(metas, names[k]).value)
    {
      assert names[k] in Elements(names);
      SeenSpec(metas, names[k]);
    }
  }

  /** A list without repetitions has as many elements as its set. */
  lemma {:induction false} DistinctCard(xs: seq<string>)
    requires forall i, j :: 0 <= i < |xs| && 0 <= j < |xs| && i != j ==> xs[i] != xs[j]
    ensures |Elements(xs)| == |xs|
  {
    if |xs| > 0 {
      var t := xs[1..];
      DistinctCard(t);
      assert Elements(xs) == {xs[0]} + Elements(t);
      forall j | 0 <= j < |t|
        ensures t[j] != xs[0]
      {
        assert t[j] == xs[j + 1];
      }
    }
  }

  /**
   * What a typed message gets: nothing when it is all whitespace, otherwise
   * the reply to its stripped text. `retrieve` and `generate` stand for the
   * vector search and the language model.
   */
  function MessageReply(text: string, retrieve: string -> seq<Hit>, generate: (string, seq<Hit>) -> string): (r: Option<string>)
    ensures r.None? <==> AllSpace(text)
    ensures r.Some? ==> |r.value| <= MaxMessage
  {
    match Question(text)
    case None => None
    case Some(q) => Some(QuestionReply(retrieve(q), generate(q, retrieve(q)), false))
  }

  /** What a button press replies: the catalogue for the catalogue button,
      otherwise the answer to the button's question. */
  function ButtonReply(data: string, metas: seq<Metadata>, retrieve: string -> seq<Hit>, generate: (string, seq<Hit>) -> string): (r: string)
    ensures |r| <= MaxMessage
  {
    match ButtonAction(data)
    case ShowSources => CatalogText(metas)
    case Ask(q) => QuestionReply(retrieve(q), generate(q, retrieve(q)), true)
  }

  /**
   * A question button answers like typing its question: the same search and
   * the same answer; only the no-information wording differs between the
   * two handlers.
   */
  lemma ButtonLikeTyped(q: string, metas: seq<Metadata>, retrieve: string -> seq<Hit>, generate: (string, seq<Hit>) -> string)
    requires q != "" && Trimmed(q) && QuestionTag + q != "cmd:sources"
    ensures |retrieve(q)| > 0 ==>
      MessageReply(q, retrieve, generate) == Some(ButtonReply(QuestionTag + q, metas, retrieve, generate))
    ensures |retrieve(q)| == 0 ==>
      MessageReply(q, retrieve, generate) == Some(NoInfoReply)
      && ButtonReply(QuestionTag + q, metas, retrieve, generate) == NoInfoButtonReply
  {
    ButtonQuestion(q);
    StripTrimmed(q);
    StripEmptyIff(q);
  }

  // ---------------------------------------------------------------------------
  // /stats
  // ---------------------------------------------------------------------------

  /** `len(set(m.get("source_name", "unknown") for m in all_meta))`. */
  function SourceCount(metas: seq<Metadata>): nat {
    |set m | m in metas :: CatalogName(m)|
  }

  /** The catalogue never lists more sources than `/stats` counts. */
  lemma CatalogWithinStats(metas: seq<Metadata>)
    ensures Seen(metas).Keys <= set m | m in metas :: CatalogName(m)
    ensures |Seen(metas)| <= SourceCount(metas)
  {
    var names := set m | m in metas :: CatalogName(m);
    forall name | name in Seen(metas)
      ensures name in names
    {
      SeenSpec(metas, name);
      FirstUrlMember(metas, name);
    }
    assert |Seen(metas).Keys| <= |names| by {
      SubsetCard(Seen(metas).Keys, names);
    }
  }

  lemma SubsetCard(a: set<string>, b: set<string>)
    requires a <= b
    ensures |a| <= |b|
  {
    assert b == a + (b - a);
  }

  /** When every record has a URL, the catalogue lists every source `/stats`
      counts. */
  lemma CatalogMatchesStats(metas: seq<Metadata>)
    requires forall k :: 0 <= k < |metas| ==> CatalogUrl(metas[k]) != ""
    ensures Seen(metas).Keys == set m | m in metas :: CatalogName(m)
    ensures |Seen(metas)| == SourceCount(metas)
  {
    CatalogWithinStats(metas);
    forall name | name in set m | m in metas :: CatalogName(m)
      ensures name in Seen(metas)
    {
      var m :| m in metas && CatalogName(m) == name;
      var k :| 0 <= k < |metas| && metas[k] == m;
      FirstUrlFound(metas, name, k);
      SeenSpec(metas, name);
    }
  }

  lemma {:induction false} FirstUrlMember(metas: seq<Metadata>, name: string)
    requires FirstUrl(metas, name).Some?
    ensures exists m :: m in metas && CatalogName(m) == name
    decreases |metas|
  {
    if !(CatalogName(metas[0]) == name && CatalogUrl(metas[0]) != "") {
      FirstUrlMember(metas[1..], name);
      var m :| m in metas[1..] && CatalogName(m) == name;
      assert m in metas;
    }
  }

  lemma {:induction false} FirstUrlFound(metas: seq<Metadata>, name: string, k: nat)
    requires k < |metas| && CatalogName(metas[k]) == name && CatalogUrl(metas[k]) != ""
    ensures FirstUrl(metas, name).Some?
    decreases k
  {
    if k > 0 && !(CatalogName(metas[0]) == name && CatalogUrl(metas[0]) != "") {
      FirstUrlFound(metas[1..], name, k - 1);
    }
  }

  /** The `/stats` reply; the chunk count and the model name come from the
      store and the environment. */
  function StatsReply(count: nat, metas: seq<Metadata>, model: string): string {
    "Chunks: " + Decimal(count) + "\nSources: " + Decimal(SourceCount(metas)) + "\nModel: " + model
  }
}
