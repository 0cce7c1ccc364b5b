/**
 * Index records: chunk ids, per-source record lists, the batched bulk load
 * of a freshly created collection, and the raw-text file format.
 *
 * The vector store is modelled as a map from id to entry. Adding an id that
 * is already present leaves the stored entry as it is (the store's `add`
 * keeps the first entry written under an id).
 */
module Records {
  import opened Wrappers
  import opened Text
  import Chunker

  // ---------------------------------------------------------------------------
  // Chunk ids
  // ---------------------------------------------------------------------------

  /** `f"{i:04d}"`: the decimal numeral, padded with zeros to four digits. */
  function Pad4(i: nat): (r: string)
    ensures |r| >= 4
    ensures |r| == if |Decimal(i)| < 4 then 4 else |Decimal(i)|
    ensures forall k :: 0 <= k < |r| ==> IsDigit(r[k])
  {
    var d := Decimal(i);
    if |d| < 4 then Zeros(4 - |d|) + d else d
  }

  /** The padded numeral reads back as the number. */
  lemma Pad4Value(i: nat)
    ensures DecimalValue(Pad4(i)) == i
  {
    DecimalRoundTrip(i);
    if |Decimal(i)| < 4 {
      LeadingZeros(4 - |Decimal(i)|, Decimal(i));
    }
  }

  const ChunkInfix: string := "_chunk_"

  /** `f"{name}_chunk_{i:04d}"`. */
  function ChunkId(name: string, i: nat): string {
    name + ChunkInfix + Pad4(i)
  }

  /** Where the run of decimal digits that ends `s` begins. */
  function DigitStart(s: string): (j: nat)
    ensures j <= |s|
    ensures forall k :: j <= k < |s| ==> IsDigit(s[k])
    ensures j > 0 ==> !IsDigit(s[j - 1])
  {
    if |s| == 0 || !IsDigit(s[|s| - 1]) then |s|
    else DigitStart(s[..|s| - 1])
  }

  /** Reads a chunk id back into its source name and chunk index; only the
      canonical spelling (exactly the padded numeral) is accepted. */
  function ParseChunkId(s: string): Option<(string, nat)> {
    var j := DigitStart(s);
    if j < |ChunkInfix| || s[j - |ChunkInfix|..j] != ChunkInfix then None
    else
      var v := DecimalValue(s[j..]);
      if s[j..] == Pad4(v) then Some((s[..j - |ChunkInfix|], v)) else None
  }

  lemma {:induction false} DigitStartAppend(a: string, b: string)
    requires |a| > 0 && !IsDigit(a[|a| - 1])
    requires forall k :: 0 <= k < |b| ==> IsDigit(b[k])
    ensures DigitStart(a + b) == |a|
    decreases |b|
  {
    if |b| == 0 {
      assert a + b == a;
    } else {
      assert (a + b)[..|a + b| - 1] == a + b[..|b| - 1];
      DigitStartAppend(a, b[..|b| - 1]);
    }
  }

  /** Parsing an id gives back the name and index it was built from. */
  lemma ChunkIdRoundTrip(name: string, i: nat)
    ensures ParseChunkId(ChunkId(name, i)) == Some((name, i))
  {
    var s := ChunkId(name, i);
    var a := name + ChunkInfix;
    assert s == a + Pad4(i);
    DigitStartAppend(a, Pad4(i));
    assert s[|a| - |ChunkInfix|..|a|] == ChunkInfix;
    assert s[|a|..] == Pad4(i);
    assert s[..|a| - |ChunkInfix|] == name;
    Pad4Value(i);
  }

  /** A string parses exactly when it is the id of what it parses to. */
  lemma ParseChunkIdExact(s: string, name: string, i: nat)
    ensures ParseChunkId(s) == Some((name, i)) <==> s == ChunkId(name, i)
  {
    if s == ChunkId(name, i) {
      ChunkIdRoundTrip(name, i);
    }
    if ParseChunkId(s) == Some((name, i)) {
      ParseChunkIdSound(s);
    }
  }

  /** Whatever parses is the id of what it parses to. */
  lemma ParseChunkIdSound(s: string)
    requires ParseChunkId(s).Some?
    ensures s == ChunkId(ParseChunkId(s).value.0, ParseChunkId(s).value.1)
  {
    var j := DigitStart(s);
    var m := j - |ChunkInfix|;
    var v := DecimalValue(s[j..]);
    assert s[m..j] == ChunkInfix;
    assert s[j..] == Pad4(v);
    assert ParseChunkId(s).value == (s[..m], v);
    assert s == s[..m] + s[m..j] + s[j..];
  }

  /** Different (name, index) pairs never share an id. */
  lemma ChunkIdInjective(n1: string, i1: nat, n2: string, i2: nat)
    ensures ChunkId(n1, i1) == ChunkId(n2, i2) <==> n1 == n2 && i1 == i2
  {
    ChunkIdRoundTrip(n1, i1);
    ChunkIdRoundTrip(n2, i2);
  }

  // ---------------------------------------------------------------------------
  // Records and the store
  // ---------------------------------------------------------------------------

  /** A metadata dict; a key the dict lacks is `None`. */
  datatype Metadata = Metadata(sourceUrl: Option<string>, sourceName: Option<string>, chunkIndex: Option<nat>)

  datatype Record = Record(id: string, document: string, metadata: Metadata)

  datatype Entry = Entry(document: string, metadata: Metadata)

  type Store = map<string, Entry>

  function EntryOf(r: Record): Entry {
    Entry(r.document, r.metadata)
  }

  /** The id names the record's source and chunk index. */
  predicate Consistent(r: Record) {
    r.metadata.sourceName.Some? && r.metadata.chunkIndex.Some? &&
    ParseChunkId(r.id) == Some((r.metadata.sourceName.value, r.metadata.chunkIndex.value))
  }

  predicate DistinctIds(rs: seq<Record>) {
    forall i, j :: 0 <= i < j < |rs| ==> rs[i].id != rs[j].id
  }

  function Ids(rs: seq<Record>): set<string> {
    set r | r in rs :: r.id
  }

  /** The records of one source: chunk `i` under id `name_chunk_{i:04d}`,
      with the source's URL and name and `chunk_index = i`. */
  function SourceRecords(name: string, url: string, chunks: seq<string>): seq<Record> {
    seq(|chunks|, i requires 0 <= i < |chunks| =>
      Record(ChunkId(name, i), chunks[i], Metadata(Some(url), Some(name), Some(i))))
  }

  /** One record per chunk, in order, each carrying the source's name and URL;
      ids are consistent with the metadata and pairwise distinct. */
  lemma SourceRecordsFacts(name: string, url: string, chunks: seq<string>)
    ensures |SourceRecords(name, url, chunks)| == |chunks|
    ensures forall i :: 0 <= i < |chunks| ==>
      SourceRecords(name, url, chunks)[i].document == chunks[i] &&
      SourceRecords(name, url, chunks)[i].metadata == Metadata(Some(url), Some(name), Some(i))
    ensures forall r :: r in SourceRecords(name, url, chunks) ==> Consistent(r)
    ensures DistinctIds(SourceRecords(name, url, chunks))
  {
    var rs := SourceRecords(name, url, chunks);
    forall r | r in rs
      ensures Consistent(r)
    {
      var i :| 0 <= i < |rs| && rs[i] == r;
      ChunkIdRoundTrip(name, i);
    }
    forall i, j | 0 <= i < j < |rs|
      ensures rs[i].id != rs[j].id
    {
      ChunkIdInjective(name, i, name, j);
    }
  }

  /** Records whose ids agree with their metadata are distinct as soon as
      their (source, index) pairs are. */
  lemma ConsistentIdsDiffer(r1: Record, r2: Record)
    requires Consistent(r1) && Consistent(r2)
    requires r1.metadata.sourceName != r2.metadata.sourceName
    ensures r1.id != r2.id
  {
  }

  /** Adding one record: a fresh id gets the record, a known id is kept. */
  function Add(store: Store, r: Record): Store {
    if r.id in store then store else store[r.id := EntryOf(r)]
  }

  function AddAll(store: Store, rs: seq<Record>): Store
    decreases |rs|
  {
    if |rs| == 0 then store else AddAll(Add(store, rs[0]), rs[1..])
  }

  /** Reference: the entries a list of records writes into an empty store,
      the first record under each id winning. */
  function FirstEntries(rs: seq<Record>): (m: Store)
    ensures m.Keys == Ids(rs)
    decreases |rs|
  {
    if |rs| == 0 then map[] else FirstEntries(rs[1..])[rs[0].id := EntryOf(rs[0])]
  }

  /** Every stored first entry is the entry of some record with its id. */
  lemma {:induction false} FirstEntriesFrom(rs: seq<Record>, id: string)
    requires id in FirstEntries(rs)
    ensures exists r :: r in rs && r.id == id && FirstEntries(rs)[id] == EntryOf(r)
    decreases |rs|
  {
    if rs[0].id != id {
      FirstEntriesFrom(rs[1..], id);
      var r :| r in rs[1..] && r.id == id && FirstEntries(rs[1..])[id] == EntryOf(r);
      assert r in rs;
    }
  }

  /** Adding a list of records unites the store with the records' first
      entries, the store's own entries winning. */
  lemma {:induction false} AddAllSpec(store: Store, rs: seq<Record>)
    ensures AddAll(store, rs) == FirstEntries(rs) + store
    decreases |rs|
  {
    if |rs| > 0 {
      var r := rs[0];
      AddAllSpec(Add(store, r), rs[1..]);
      UnionAdd(FirstEntries(rs[1..]), store, r);
    }
  }

  /** An entry added under a fresh id may as well come from the left operand. */
  lemma UnionAdd(f: Store, store: Store, r: Record)
    ensures f + Add(store, r) == f[r.id := EntryOf(r)] + store
  {
    if r.id !in store {
      UnionUpdate(f, store, r.id, EntryOf(r));
      var l, m := f + store[r.id := EntryOf(r)], f[r.id := EntryOf(r)] + store;
      assert l.Keys == m.Keys;
      forall k | k in l.Keys
        ensures l[k] == m[k]
      {
      }
    } else {
      var l, m := f + store, f[r.id := EntryOf(r)] + store;
      assert l.Keys == m.Keys;
      forall k | k in l.Keys
        ensures l[k] == m[k]
      {
      }
    }
  }

  /** Updating the right operand of a union updates the union. */
  lemma UnionUpdate(m1: Store, m2: Store, k: string, v: Entry)
    ensures m1 + m2[k := v] == (m1 + m2)[k := v]
  {
    var l, r := m1 + m2[k := v], (m1 + m2)[k := v];
    assert l.Keys == r.Keys;
    forall j | j in l.Keys
      ensures l[j] == r[j]
    {
    }
  }

  /** Adding in two steps is adding the concatenation. */
  lemma AddAllConcat(store: Store, a: seq<Record>, b: seq<Record>)
    ensures AddAll(AddAll(store, a), b) == AddAll(store, a + b)
  {
    AddAllSpec(store, a);
    AddAllSpec(AddAll(store, a), b);
    AddAllSpec(store, a + b);
    FirstEntriesConcat(a, b);
    UnionAssoc(FirstEntries(b), FirstEntries(a), store);
  }

  lemma UnionAssoc(m1: Store, m2: Store, m3: Store)
    ensures m1 + (m2 + m3) == (m1 + m2) + m3
  {
    var l, r := m1 + (m2 + m3), (m1 + m2) + m3;
    assert l.Keys == r.Keys;
    forall k | k in l.Keys
      ensures l[k] == r[k]
    {
    }
  }

  lemma {:induction false} FirstEntriesConcat(a: seq<Record>, b: seq<Record>)
    ensures FirstEntries(a + b) == FirstEntries(b) + FirstEntries(a)
    decreases |a|
  {
    if |a| == 0 {
      assert a + b == b;
    } else {
      assert (a + b)[1..] == a[1..] + b;
      FirstEntriesConcat(a[1..], b);
      UnionUpdate(FirstEntries(b), FirstEntries(a[1..]), a[0].id, EntryOf(a[0]));
    }
  }

  /** With distinct ids, each record is stored exactly as given. */
  lemma {:induction false} FirstEntriesDistinct(rs: seq<Record>)
    requires DistinctIds(rs)
    ensures forall i :: 0 <= i < |rs| ==> FirstEntries(rs)[rs[i].id] == EntryOf(rs[i])
    decreases |rs|
  {
    if |rs| > 0 {
      FirstEntriesDistinct(rs[1..]);
      forall i | 0 < i < |rs|
        ensures FirstEntries(rs)[rs[i].id] == EntryOf(rs[i])
      {
        assert rs[1..][i - 1] == rs[i];
      }
    }
  }

  // ---------------------------------------------------------------------------
  // Batches
  // ---------------------------------------------------------------------------

  const BatchSize: nat := 100

  /** `[xs[i:i + size] for i in range(0, len(xs), size)]`. */
  function Batches<T>(xs: seq<T>, size: nat): (bs: seq<seq<T>>)
    requires size > 0
    ensures Concat(bs) == xs
    ensures forall k :: 0 <= k < |bs| ==> 0 < |bs[k]| <= size
    ensures forall k :: 0 <= k < |bs| - 1 ==> |bs[k]| == size
    ensures |xs| == 0 ==> |bs| == 0
    ensures |xs| > 0 ==> (|bs| - 1) * size < |xs| <= |bs| * size
    decreases |xs|
  {
    if |xs| == 0 then []
    else if |xs| <= size then
      assert [xs][1..] == [];
      [xs]
    else
      var rest := Batches(xs[size..], size);
      assert ([xs[..size]] + rest)[1..] == rest;
      assert xs[..size] + xs[size..] == xs;
      [xs[..size]] + rest
  }

  /** There are `ceil(len / size)` batches. */
  lemma BatchCount<T>(xs: seq<T>, size: nat)
    requires size > 0
    ensures |Batches(xs, size)| == (|xs| + size - 1) / size
  {
    var bs := Batches(xs, size);
    if |xs| > 0 {
      Chunker.CeilingCount(|xs|, size, |bs|);
    }
  }

  /** Reference: adding batch after batch. */
  function AddBatches(store: Store, bs: seq<seq<Record>>): Store
    decreases |bs|
  {
    if |bs| == 0 then store else AddBatches(AddAll(store, bs[0]), bs[1..])
  }

  /** Adding the batches one by one is adding their concatenation. */
  lemma {:induction false} AddBatchesConcat(store: Store, bs: seq<seq<Record>>)
    ensures AddBatches(store, bs) == AddAll(store, Concat(bs))
    decreases |bs|
  {
    if |bs| > 0 {
      AddBatchesConcat(AddAll(store, bs[0]), bs[1..]);
      AddAllConcat(store, bs[0], Concat(bs[1..]));
    }
  }

  // ---------------------------------------------------------------------------
  // The initial build
  // ---------------------------------------------------------------------------

  /** A fetched article: its URL and extracted text. */
  datatype Article = Article(url: string, text: string)

  /** The fetched dict, in insertion order. */
  type Fetched = seq<(string, Article)>

  predicate DistinctNames(f: Fetched) {
    forall i, j :: 0 <= i < j < |f| ==> f[i].0 != f[j].0
  }

  /** `fetched[name] = article`: replaces in place or appends. */
  function Put(f: Fetched, name: string, a: Article): (r: Fetched)
    ensures |r| == |f| || |r| == |f| + 1
    decreases |f|
  {
    if |f| == 0 then [(name, a)]
    else if f[0].0 == name then [(name, a)] + f[1..]
    else [f[0]] + Put(f[1..], name, a)
  }

  /** `Put` keeps names distinct, stores the article, and leaves every other
      name's article alone. */
  lemma {:induction false} PutFacts(f: Fetched, name: string, a: Article)
    requires DistinctNames(f)
    ensures DistinctNames(Put(f, name, a))
    ensures (name, a) in Put(f, name, a)
    ensures forall p :: p in Put(f, name, a) && p.0 != name ==> p in f
    ensures forall p :: p in f && p.0 != name ==> p in Put(f, name, a)
    decreases |f|
  {
    if |f| > 0 && f[0].0 != name {
      PutFacts(f[1..], name, a);
      var r := Put(f, name, a);
      forall i, j | 0 <= i < j < |r|
        ensures r[i].0 != r[j].0
      {
        if i == 0 {
          assert r[j] in Put(f[1..], name, a);
          assert r[j].0 == name || r[j] in f[1..];
        }
      }
      forall p | p in f && p.0 != name
        ensures p in r
      {
        if p != f[0] {
          assert p in f[1..];
        }
      }
    } else if |f| > 0 {
      var r := Put(f, name, a);
      forall i, j | 0 <= i < j < |r|
        ensures r[i].0 != r[j].0
      {
        if i > 0 {
          assert r[i] == f[i] && r[j] == f[j];
        } else {
          assert r[j] == f[j];
        }
      }
    }
  }

  /** The configured (name, URL) list. */
  const Urls: seq<(string, string)> := [
    ("comedy_green_room", "https://www.thecomedygreenroom.com/post/kenny-robinson"),
    ("now_toronto", "https://nowtoronto.com/culture/40-at-40-kenny-robinson-godfather-of-canadian-comedy/"),
    ("original_cin", "https://www.original-cin.ca/posts/2025/4/8/original-cin-chat-nubian-show-founder-kenny-robinson-on-30-years-of-comedy-and-a-crave-debut"),
    ("caribbean_camera", "https://thecaribbeancamera.com/kenny-robinson-nubian-show-30-years/"),
    ("globe_and_mail_1", "https://www.theglobeandmail.com/news/toronto/kenny-robinson-comedian/article565003/"),
    ("wikipedia", "https://en.wikipedia.org/wiki/Kenny_Robinson_(comedian)"),
    ("kenny_robinson_bio", "https://www.kennyrobinson.com/bio.html"),
    ("imdb", "https://www.imdb.com/name/nm0732811/"),
    ("cbc_elbows_up", "https://www.cbc.ca/arts/q/kenny-robinson-is-elbows-up-for-canadian-comedians-1.7503763"),
    ("cbc_godfather", "https://www.cbc.ca/comedy/the-godfather-of-comedy-kenny-robinson-celebrates-25-years-of-his-successful-nubian-comedy-revue-1.5804743"),
    ("deadline_eh_list", "https://deadline.com/2025/07/eh-list-standup-specials-kenny-robinson-new-metric-media-1236464843/"),
    ("globe_and_mail_2", "https://www.theglobeandmail.com/arts/colour-him-funny/article4152789/"),
    ("comedy_history_101", "http://www.comedyhistory101.com/comedy-history-101/2025/6/6/the-def-jam-comedy-of-canada-the-nubian-show"),
    ("parton_and_pearl", "https://www.partonandpearl.com/blog/new-doc-people-of-comedy-premieres-april-9"),
    ("playback_online", "https://playbackonline.ca/2025/07/23/new-metric-media-introduces-eh-list-standup-comedy-slate/"),
    ("ted_woloshyn", "https://www.tedwoloshyn.ca/season-4-episode-28-kenny-robinson/"),
    ("funny_business", "https://www.funnybusiness.ca/comedians.php?standup=kenny-robinson")
  ]

  /** The fetch loop: `texts[i]` is what fetching `urls[i]` returned; a missing
      or empty text goes to the failed list instead of the dict. */
  function Gather(urls: seq<(string, string)>, texts: seq<Option<string>>): (f: Fetched)
    requires |texts| == |urls|
    decreases |urls|
  {
    if |urls| == 0 then []
    else
      var f := Gather(urls[..|urls| - 1], texts[..|texts| - 1]);
      var (name, url) := urls[|urls| - 1];
      var t := texts[|texts| - 1];
      if t.Some? && t.value != "" then Put(f, name, Article(url, t.value)) else f
  }

  /** Every dict entry is a configured name with its URL and a non-empty text,
      and names are distinct. */
  lemma {:induction false} GatherFacts(urls: seq<(string, string)>, texts: seq<Option<string>>)
    requires |texts| == |urls|
    ensures DistinctNames(Gather(urls, texts))
    ensures forall p :: p in Gather(urls, texts) ==>
      p.1.text != "" && (p.0, p.1.url) in urls
    decreases |urls|
  {
    if |urls| > 0 {
      var urls', texts' := urls[..|urls| - 1], texts[..|texts| - 1];
      GatherFacts(urls', texts');
      var f := Gather(urls', texts');
      var (name, url) := urls[|urls| - 1];
      var t := texts[|texts| - 1];
      assert forall p :: p in urls' ==> p in urls;
      if t.Some? && t.value != "" {
        PutFacts(f, name, Article(url, t.value));
      }
    }
  }

  /** Every fetch returned a non-empty text. */
  predicate AllFetched(texts: seq<Option<string>>) {
    forall i :: 0 <= i < |texts| ==> texts[i].Some? && texts[i].value != ""
  }

  /** No two configured sources share a name. */
  predicate DistinctSources(urls: seq<(string, string)>) {
    forall i, j :: 0 <= i < j < |urls| ==> urls[i].0 != urls[j].0
  }

  /** Both properties survive dropping the last source. */
  lemma GatherPrefix(urls: seq<(string, string)>, texts: seq<Option<string>>, n: nat)
    requires n <= |urls| && n <= |texts|
    requires AllFetched(texts) && DistinctSources(urls)
    ensures AllFetched(texts[..n]) && DistinctSources(urls[..n])
  {
  }

  /** When every fetch succeeds, every configured source is in the dict. */
  lemma {:induction false} GatherAll(urls: seq<(string, string)>, texts: seq<Option<string>>, k: nat)
    requires |texts| == |urls| && k < |urls|
    requires AllFetched(texts) && DistinctSources(urls)
    ensures (urls[k].0, Article(urls[k].1, texts[k].value)) in Gather(urls, texts)
    decreases |urls|
  {
    var n := |urls| - 1;
    var urls', texts' := urls[..n], texts[..n];
    GatherLast(urls, texts);
    GatherFacts(urls', texts');
    PutFacts(Gather(urls', texts'), urls[n].0, Article(urls[n].1, texts[n].value));
    if k < n {
      assert urls'[k] == urls[k] && texts'[k] == texts[k];
      assert urls[k].0 != urls[n].0;
      GatherPrefix(urls, texts, n);
      GatherAll(urls', texts', k);
    }
  }

  /** A last source whose fetch succeeded is put into the dict of the ones before it. */
  lemma GatherLast(urls: seq<(string, string)>, texts: seq<Option<string>>)
    requires |texts| == |urls| > 0
    requires texts[|texts| - 1].Some? && texts[|texts| - 1].value != ""
    ensures var n := |urls| - 1;
      Gather(urls, texts) == Put(Gather(urls[..n], texts[..n]), urls[n].0, Article(urls[n].1, texts[n].value))
  {
  }

  /** The configured names are pairwise distinct. */
  lemma UrlsDistinct()
    ensures forall i, j :: 0 <= i < j < |Urls| ==> Urls[i].0 != Urls[j].0
  {
  }

  /** `all_chunks`: every source's records, in dict order. */
  function AllRecords(f: Fetched): seq<Record>
    decreases |f|
  {
    if |f| == 0 then []
    else
      var (name, a) := f[0];
      SourceRecords(name, a.url, Chunker.ChunkText(a.text, Chunker.ChunkSize, Chunker.ChunkOverlap))
        + AllRecords(f[1..])
  }

  /** Every record of the build agrees with its metadata, comes from a fetched
      source, and no two records share an id. */
  lemma {:induction false} AllRecordsFacts(f: Fetched)
    requires DistinctNames(f)
    ensures forall r :: r in AllRecords(f) ==> Consistent(r)
    ensures forall r :: r in AllRecords(f) ==>
      exists p :: p in f && r.metadata.sourceName == Some(p.0) && r.metadata.sourceUrl == Some(p.1.url)
    ensures DistinctIds(AllRecords(f))
    decreases |f|
  {
    if |f| > 0 {
      var (name, a) := f[0];
      var chunks := Chunker.ChunkText(a.text, Chunker.ChunkSize, Chunker.ChunkOverlap);
      var head := SourceRecords(name, a.url, chunks);
      var tail := AllRecords(f[1..]);
      SourceRecordsFacts(name, a.url, chunks);
      AllRecordsFacts(f[1..]);
      assert AllRecords(f) == head + tail;
      forall r | r in head
        ensures r.metadata.sourceName == Some(name) && r.metadata.sourceUrl == Some(a.url)
      {
        var i :| 0 <= i < |head| && head[i] == r;
      }
      JoinSourceFacts(f, head, tail);
    }
  }

  /** The first source's records in front of the rest's keep the facts,
      the first source's name being none of the others'. */
  lemma JoinSourceFacts(f: Fetched, head: seq<Record>, tail: seq<Record>)
    requires |f| > 0 && DistinctNames(f)
    requires forall r :: r in head ==> Consistent(r)
    requires forall r :: r in head ==> r.metadata.sourceName == Some(f[0].0) && r.metadata.sourceUrl == Some(f[0].1.url)
    requires DistinctIds(head)
    requires forall r :: r in tail ==> Consistent(r)
    requires forall r :: r in tail ==>
      exists p :: p in f[1..] && r.metadata.sourceName == Some(p.0) && r.metadata.sourceUrl == Some(p.1.url)
    requires DistinctIds(tail)
    ensures forall r :: r in head + tail ==> Consistent(r)
    ensures forall r :: r in head + tail ==>
      exists p :: p in f && r.metadata.sourceName == Some(p.0) && r.metadata.sourceUrl == Some(p.1.url)
    ensures DistinctIds(head + tail)
  {
    forall r: Record | r in head + tail
      ensures exists p :: p in f && r.metadata.sourceName == Some(p.0) && r.metadata.sourceUrl == Some(p.1.url)
    {
      if r in head {
        assert f[0] in f;
      } else {
        var p :| p in f[1..] && r.metadata.sourceName == Some(p.0) && r.metadata.sourceUrl == Some(p.1.url);
        assert p in f;
      }
    }
    forall r2 | r2 in tail
      ensures r2.metadata.sourceName != Some(f[0].0)
    {
      var p :| p in f[1..] && r2.metadata.sourceName == Some(p.0) && r2.metadata.sourceUrl == Some(p.1.url);
      var m :| 0 <= m < |f[1..]| && f[1..][m] == p;
      assert f[m + 1] == p;
    }
    JoinDistinctIds(head, tail, f[0].0);
  }

  /** Consistent records named differently never share an id, so the
      concatenation of two id-distinct lists stays id-distinct. */
  lemma JoinDistinctIds(head: seq<Record>, tail: seq<Record>, name: string)
    requires forall r :: r in head ==> Consistent(r) && r.metadata.sourceName == Some(name)
    requires forall r :: r in tail ==> Consistent(r) && r.metadata.sourceName != Some(name)
    requires DistinctIds(head) && DistinctIds(tail)
    ensures DistinctIds(head + tail)
  {
    forall i, j | 0 <= i < j < |head + tail|
      ensures (head + tail)[i].id != (head + tail)[j].id
    {
      if i < |head| <= j {
        var r1, r2 := (head + tail)[i], (head + tail)[j];
        assert r1 in head && r2 in tail;
        ConsistentIdsDiffer(r1, r2);
      } else if j < |head| {
        assert (head + tail)[i] == head[i] && (head + tail)[j] == head[j];
      } else {
        assert (head + tail)[i] == tail[i - |head|] && (head + tail)[j] == tail[j - |head|];
      }
    }
  }

  /** The rebuilt collection: the old one is dropped, a new empty one is
      created, and the records are added in batches of 100. */
  function BuildIndex(f: Fetched): Store {
    AddBatches(map[], Batches(AllRecords(f), BatchSize))
  }

  /** Batching changes nothing: the collection is the build's first entries. */
  lemma BuildIndexEntries(f: Fetched)
    ensures BuildIndex(f) == FirstEntries(AllRecords(f))
  {
    var rs := AllRecords(f);
    AddBatchesConcat(map[], Batches(rs, BatchSize));
    AddAllSpec(map[], rs);
    assert FirstEntries(rs) + map[] == FirstEntries(rs);
  }

  /** The rebuilt collection holds exactly the build's records, each under its
      own id with its own chunk text and metadata. */
  lemma BuildIndexSpec(f: Fetched)
    requires DistinctNames(f)
    ensures BuildIndex(f).Keys == Ids(AllRecords(f))
    ensures forall r :: r in AllRecords(f) ==> BuildIndex(f)[r.id] == EntryOf(r)
  {
    var rs := AllRecords(f);
    BuildIndexEntries(f);
    AllRecordsFacts(f);
    FirstEntriesDistinct(rs);
    forall r | r in rs
      ensures BuildIndex(f)[r.id] == EntryOf(r)
    {
      var i :| 0 <= i < |rs| && rs[i] == r;
    }
  }

  // ---------------------------------------------------------------------------
  // Raw text files
  // ---------------------------------------------------------------------------

  /** `"=" * n`. */
  function Repeat(c: char, n: nat): (r: string)
    ensures |r| == n
    ensures forall i :: 0 <= i < n ==> r[i] == c
  {
    if n == 0 then "" else [c] + Repeat(c, n - 1)
  }

  const Rule60: string := Repeat('=', 60)

  /** The saved file: a `SOURCE:` line, a rule of sixty `=`, a blank line,
      then the text. */
  function RawFile(url: string, text: string): string {
    "SOURCE: " + url + "\n" + Rule60 + "\n\n" + text
  }
}
