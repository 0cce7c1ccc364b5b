/**
 * The supplemental update: reading a hand-prepared text file (header lines,
 * a blank line, then the body), and replacing sources in the existing index
 * by provenance before adding the files' chunks.
 */
module Supplemental {
  import opened Wrappers
  import opened Text
  import Chunker
  import opened Records

  // ---------------------------------------------------------------------------
  // Reading a file in text mode
  // ---------------------------------------------------------------------------

  /** Universal newlines: `"\r\n"` and a lone `"\r"` both read as `"\n"`. */
  function UniversalNewlines(s: string): (r: string)
    ensures forall i :: 0 <= i < |r| ==> r[i] != '\r'
    ensures |r| <= |s|
    decreases |s|
  {
    if |s| == 0 then ""
    else if s[0] == '\r' then
      if |s| > 1 && s[1] == '\n' then "\n" + UniversalNewlines(s[2..])
      else "\n" + UniversalNewlines(s[1..])
    else [s[0]] + UniversalNewlines(s[1..])
  }

  predicate NoLineBreak(s: string) {
    forall i :: 0 <= i < |s| ==> s[i] != '\n' && s[i] != '\r'
  }

  /** Text without carriage returns reads back unchanged. */
  lemma {:induction false} UniversalNewlinesPlain(s: string)
    requires forall i :: 0 <= i < |s| ==> s[i] != '\r'
    ensures UniversalNewlines(s) == s
    decreases |s|
  {
    if |s| > 0 {
      UniversalNewlinesPlain(s[1..]);
      assert [s[0]] + s[1..] == s;
    }
  }

  /** A `"\r\n"` pair reads as one `"\n"`. */
  lemma UniversalNewlinesCrLf(t: string)
    ensures UniversalNewlines("\r\n" + t) == "\n" + UniversalNewlines(t)
  {
    assert ("\r\n" + t)[2..] == t;
  }

  /** A `"\r"` not followed by `"\n"` reads as `"\n"`. */
  lemma UniversalNewlinesLoneCr(t: string)
    requires |t| == 0 || t[0] != '\n'
    ensures UniversalNewlines("\r" + t) == "\n" + UniversalNewlines(t)
  {
    assert ("\r" + t)[1..] == t;
  }

  /** Any other character reads as itself. */
  lemma UniversalNewlinesKeep(c: char, t: string)
    requires c != '\r'
    ensures UniversalNewlines([c] + t) == [c] + UniversalNewlines(t)
  {
    assert ([c] + t)[1..] == t;
  }

  /** Translation is idempotent. */
  lemma UniversalNewlinesIdempotent(s: string)
    ensures UniversalNewlines(UniversalNewlines(s)) == UniversalNewlines(s)
  {
    UniversalNewlinesPlain(UniversalNewlines(s));
  }

  /** Translating two pieces separately is translating their concatenation,
      unless a `"\r\n"` pair straddles the cut. */
  lemma {:induction false} UniversalNewlinesAppend(a: string, b: string)
    requires |a| == 0 || a[|a| - 1] != '\r'
    ensures UniversalNewlines(a + b) == UniversalNewlines(a) + UniversalNewlines(b)
    decreases |a|
  {
    if |a| == 0 {
      assert a + b == b;
    } else {
      var k := if a[0] == '\r' && |a| > 1 && a[1] == '\n' then 2 else 1;
      var h := if a[0] == '\r' then "\n" else [a[0]];
      assert UniversalNewlines(a) == h + UniversalNewlines(a[k..]);
      assert (a + b)[0] == a[0];
      assert |a| > 1 ==> (a + b)[1] == a[1];
      assert UniversalNewlines(a + b) == h + UniversalNewlines((a + b)[k..]);
      SplitAppend(a, b, k);
      UniversalNewlinesAppend(a[k..], b);
      AppendAssoc(h, UniversalNewlines(a[k..]), UniversalNewlines(b));
    }
  }

  /** Length of the first line, its `'\n'` included. */
  function LineLength(s: string): (n: nat)
    requires |s| > 0
    ensures 0 < n <= |s|
    ensures forall i :: 0 <= i < n - 1 ==> s[i] != '\n'
    ensures n < |s| ==> s[n - 1] == '\n'
  {
    if s[0] == '\n' || |s| == 1 then 1 else 1 + LineLength(s[1..])
  }

  /** A non-empty piece of text with no `'\n'` before its last character. */
  predicate IsLine(line: string) {
    |line| > 0 && forall i :: 0 <= i < |line| - 1 ==> line[i] != '\n'
  }

  /** Text whose last character is `'\n'`. */
  predicate EndsLine(line: string) {
    |line| > 0 && line[|line| - 1] == '\n'
  }

  /** `f.readlines()`: the text cut after every `'\n'`. */
  function ReadLines(s: string): seq<string>
    decreases |s|
  {
    if |s| == 0 then []
    else
      var n := LineLength(s);
      [s[..n]] + ReadLines(s[n..])
  }

  /** The lines are non-empty, each but the last ends with its only `'\n'`,
      and together they spell the text. */
  lemma {:induction false} ReadLinesFacts(s: string)
    ensures Concat(ReadLines(s)) == s
    ensures forall k :: 0 <= k < |ReadLines(s)| ==> IsLine(ReadLines(s)[k])
    ensures forall k :: 0 <= k < |ReadLines(s)| - 1 ==> EndsLine(ReadLines(s)[k])
    decreases |s|
  {
    if |s| > 0 {
      var n := LineLength(s);
      var x, rest := s[..n], ReadLines(s[n..]);
      ReadLinesCons(s);
      ReadLinesFacts(s[n..]);
      ConcatCons(x, rest);
      TakeDrop(s, n);
      assert IsLine(x);
      assert |rest| > 0 ==> EndsLine(x);
    }
  }

  lemma {:induction false} LineLengthAppend(a: string, b: string)
    requires |a| > 0 && a[|a| - 1] == '\n'
    ensures LineLength(a + b) == LineLength(a)
    decreases |a|
  {
    if a[0] != '\n' {
      assert |a| > 1;
      assert (a + b)[1..] == a[1..] + b;
      LineLengthAppend(a[1..], b);
    }
  }

  /** Lines of a text that ends a line are followed by the lines of the rest. */
  lemma {:induction false} ReadLinesAppend(a: string, b: string)
    requires |a| == 0 || a[|a| - 1] == '\n'
    ensures ReadLines(a + b) == ReadLines(a) + ReadLines(b)
    decreases |a|
  {
    if |a| == 0 {
      assert a + b == b;
    } else {
      var n := LineLength(a);
      LineLengthAppend(a, b);
      SplitAppend(a, b, n);
      ReadLinesAppend(a[n..], b);
      ReadLinesCons(a);
      ReadLinesCons(a + b);
      AppendAssoc([a[..n]], ReadLines(a[n..]), ReadLines(b));
    }
  }

  /** The first line, then the lines of the rest. */
  lemma ReadLinesCons(s: string)
    requires |s| > 0
    ensures ReadLines(s) == [s[..LineLength(s)]] + ReadLines(s[LineLength(s)..])
  {
  }

  /** A single line reads as itself. */
  lemma ReadLinesOne(line: string)
    requires |line| > 0
    requires forall i :: 0 <= i < |line| - 1 ==> line[i] != '\n'
    ensures ReadLines(line) == [line]
  {
    assert LineLength(line) == |line|;
    assert line[..|line|] == line;
    assert line[|line|..] == "";
    assert ReadLines("") == [];
  }

  // ---------------------------------------------------------------------------
  // parse_file
  // ---------------------------------------------------------------------------

  /** `stripped.upper().startswith("URL:")`. */
  predicate IsUrlLine(stripped: string) {
    StartsWithCI(stripped, "url:")
  }

  /** `stripped.split(":", 1)[1].strip()` on a URL line, whose first colon is
      the fourth character. */
  function UrlOf(stripped: string): string
    requires IsUrlLine(stripped)
  {
    Strip(stripped[4..])
  }

  /** On a URL line the first colon is at index 3, so the text after the first
      colon starts at index 4. */
  lemma UrlLineColon(stripped: string)
    requires IsUrlLine(stripped)
    ensures stripped[3] == ':'
    ensures forall i :: 0 <= i < 3 ==> stripped[i] != ':'
  {
    var l := Lower(stripped[..4]);
    assert l[0] == 'u' && l[1] == 'r' && l[2] == 'l' && l[3] == ':';
  }

  /** A line that ends the header: whitespace only, and not the first line. */
  predicate Separator(lines: seq<string>, j: int) {
    0 < j < |lines| && AllSpace(lines[j])
  }

  /**
   * The scan from line `i` on, with the URL found so far: a URL line sets the
   * URL, and the first blank line after line 0 stops the scan, the body
   * starting on the next line. The result is the URL and the body's first line
   * index (0 when the scan runs off the end).
   */
  function Scan(lines: seq<string>, i: nat, url: string): (r: (string, nat))
    requires i <= |lines|
    ensures r.1 <= |lines|
    decreases |lines| - i
  {
    if i == |lines| then (url, 0)
    else
      var url' := NextUrl(lines[i], url);
      if EndsHeader(lines, i) then (url', i + 1) else Scan(lines, i + 1, url')
  }

  /** One line's effect on the URL: a URL line replaces it. */
  function NextUrl(line: string, url: string): string {
    var stripped := Strip(line);
    if IsUrlLine(stripped) then UrlOf(stripped) else url
  }

  /** The loop's break test on line `i`. */
  predicate EndsHeader(lines: seq<string>, i: nat)
    requires i < |lines|
  {
    Strip(lines[i]) == "" && i > 0
  }

  lemma EndsHeaderIff(lines: seq<string>, i: nat)
    requires i < |lines|
    ensures EndsHeader(lines, i) <==> Separator(lines, i)
  {
    StripEmptyIff(lines[i]);
  }

  /** Reference: the URL of the last URL line among `lines`, else `""`. */
  function LastUrl(lines: seq<string>): string {
    if |lines| == 0 then ""
    else
      var stripped := Strip(lines[|lines| - 1]);
      if IsUrlLine(stripped) then UrlOf(stripped) else LastUrl(lines[..|lines| - 1])
  }

  /** Lines scanned: up to and including the separator, or all of them. */
  function ScannedEnd(lines: seq<string>, bodyStart: nat): nat {
    if bodyStart == 0 then |lines| else bodyStart
  }

  lemma LastUrlStep(lines: seq<string>, i: nat)
    requires i < |lines|
    ensures LastUrl(lines[..i + 1]) == NextUrl(lines[i], LastUrl(lines[..i]))
  {
    assert lines[..i + 1][..i] == lines[..i];
  }

  /** No separator line at `i` or after. */
  predicate NoSeparatorFrom(lines: seq<string>, i: nat) {
    forall j :: i <= j < |lines| ==> !Separator(lines, j)
  }

  lemma NoSeparatorFromStep(lines: seq<string>, i: nat)
    requires i < |lines|
    ensures NoSeparatorFrom(lines, i) <==> !Separator(lines, i) && NoSeparatorFrom(lines, i + 1)
  {
  }

  /** Where the scan stops, whatever the URL: just past the first separator
      at or after `i`, or 0 when there is none. */
  function ScanStop(lines: seq<string>, i: nat): nat
    requires i <= |lines|
    decreases |lines| - i
  {
    if i == |lines| then 0
    else if EndsHeader(lines, i) then i + 1
    else ScanStop(lines, i + 1)
  }

  /** The URL found so far has no say in where the scan stops. */
  lemma {:induction false} ScanStopIndependent(lines: seq<string>, i: nat, url: string)
    requires i <= |lines|
    ensures Scan(lines, i, url).1 == ScanStop(lines, i)
    decreases |lines| - i
  {
    if i < |lines| {
      var u := NextUrl(lines[i], url);
      ScanUnfold(lines, i, url);
      if !EndsHeader(lines, i) {
        ScanStopIndependent(lines, i + 1, u);
      }
    }
  }

  /** One step of the scan. */
  lemma ScanUnfold(lines: seq<string>, i: nat, url: string)
    requires i < |lines|
    ensures Scan(lines, i, url).1 ==
      if EndsHeader(lines, i) then i + 1 else Scan(lines, i + 1, NextUrl(lines[i], url)).1
  {
  }

  /** The scan runs off the end exactly when no separator follows `i`. */
  lemma ScanRunsOff(lines: seq<string>, i: nat, url: string)
    requires i <= |lines|
    ensures Scan(lines, i, url).1 == 0 <==> NoSeparatorFrom(lines, i)
  {
    ScanStopIndependent(lines, i, url);
    StopRunsOff(lines, i);
  }

  lemma {:induction false} StopRunsOff(lines: seq<string>, i: nat)
    requires i <= |lines|
    ensures ScanStop(lines, i) == 0 <==> NoSeparatorFrom(lines, i)
    decreases |lines| - i
  {
    if i < |lines| {
      EndsHeaderIff(lines, i);
      NoSeparatorFromStep(lines, i);
      if !EndsHeader(lines, i) {
        StopRunsOff(lines, i + 1);
      }
    }
  }

  /** When the scan stops, it stops right after the first separator at or
      after `i`. */
  lemma ScanStopsAt(lines: seq<string>, i: nat, url: string, b: nat)
    requires i <= |lines| && b == Scan(lines, i, url).1 && b != 0
    ensures i < b && Separator(lines, b - 1)
    ensures forall j :: i <= j < b - 1 ==> !Separator(lines, j)
  {
    ScanStopIndependent(lines, i, url);
    StopAt(lines, i, b);
  }

  lemma {:induction false} StopAt(lines: seq<string>, i: nat, b: nat)
    requires i <= |lines| && b == ScanStop(lines, i) && b != 0
    ensures i < b && Separator(lines, b - 1)
    ensures forall j :: i <= j < b - 1 ==> !Separator(lines, j)
    decreases |lines| - i
  {
    EndsHeaderIff(lines, i);
    if !EndsHeader(lines, i) {
      StopAt(lines, i + 1, b);
      forall j | i <= j < b - 1
        ensures !Separator(lines, j)
      {
        if j == i {
          assert !EndsHeader(lines, i);
        }
      }
    }
  }

  /** The scan's URL is that of the last URL line it passed. */
  lemma {:induction false} ScanUrl(lines: seq<string>, i: nat, url: string)
    requires i <= |lines| && url == LastUrl(lines[..i])
    ensures Scan(lines, i, url).0 == LastUrl(lines[..ScannedEnd(lines, Scan(lines, i, url).1)])
    decreases |lines| - i
  {
    if i == |lines| {
      assert lines[..i] == lines;
    } else {
      var url' := NextUrl(lines[i], url);
      LastUrlStep(lines, i);
      if EndsHeader(lines, i) {
        assert Scan(lines, i, url) == (url', i + 1);
      } else {
        assert Scan(lines, i, url) == Scan(lines, i + 1, url');
        ScanUrl(lines, i + 1, url');
      }
    }
  }

  /** `(source_url, body)`: the scanned URL and the stripped text from the
      body's first line on. */
  function ParseLines(lines: seq<string>): (r: (string, string))
    ensures Trimmed(r.1)
  {
    var (url, bodyStart) := Scan(lines, 0, "");
    (url, Strip(Concat(lines[bodyStart..])))
  }

  /** `parse_file` on the file's decoded content. */
  function ParseFile(content: string): (r: (string, string))
    ensures Trimmed(r.1)
  {
    ParseLines(ReadLines(UniversalNewlines(content)))
  }

  /** Without a separator the body is the whole file stripped, header lines
      included, and the URL is that of the last URL line in the file. */
  lemma NoSeparatorWholeFile(lines: seq<string>)
    requires forall j :: 0 <= j < |lines| ==> !Separator(lines, j)
    ensures ParseLines(lines) == (LastUrl(lines), Strip(Concat(lines)))
  {
    ScanRunsOff(lines, 0, "");
    ScanUrl(lines, 0, "");
    assert lines[0..] == lines;
    assert lines[..|lines|] == lines;
  }

  /** With a separator at `j` (the first one), the URL comes only from lines
      before it and the body from the lines after it. */
  lemma SeparatorSplits(lines: seq<string>, j: nat)
    requires j < |lines| && Separator(lines, j)
    requires forall k :: 0 <= k < j ==> !Separator(lines, k)
    ensures ParseLines(lines) == (LastUrl(lines[..j]), Strip(Concat(lines[j + 1..])))
  {
    ScanRunsOff(lines, 0, "");
    ScanUrl(lines, 0, "");
    var b := Scan(lines, 0, "").1;
    ScanStopsAt(lines, 0, "", b);
    assert b == j + 1;
    assert LastUrl(lines[..j + 1]) == LastUrl(lines[..j + 1][..j]) by {
      StripEmptyIff(lines[j]);
    }
    assert lines[..j + 1][..j] == lines[..j];
  }

  /** A line without line breaks, terminated, translates to itself and reads
      as one line. */
  lemma OneLine(h: string)
    requires NoLineBreak(h)
    ensures UniversalNewlines(h + "\n") == h + "\n"
    ensures ReadLines(h + "\n") == [h + "\n"]
  {
    UniversalNewlinesPlain(h + "\n");
    ReadLinesOne(h + "\n");
  }

  /** Translating newlines in a file with two header lines and a blank line
      touches only the body. */
  lemma HeaderTranslate(h0: string, h1: string, body: string)
    requires NoLineBreak(h0) && NoLineBreak(h1)
    ensures UniversalNewlines(h0 + "\n" + h1 + "\n\n" + body) ==
      (h0 + "\n") + ((h1 + "\n") + ("\n" + UniversalNewlines(body)))
  {
    var a, b, c := h0 + "\n", h1 + "\n", "\n";
    assert h0 + "\n" + h1 + "\n\n" + body == a + (b + (c + body));
    OneLine(h0);
    OneLine(h1);
    UniversalNewlinesPlain(c);
    UniversalNewlinesAppend(c, body);
    UniversalNewlinesAppend(b, c + body);
    UniversalNewlinesAppend(a, b + (c + body));
  }

  /** The lines of a file with two header lines, a blank line and a body. */
  lemma HeaderLines(h0: string, h1: string, body: string)
    requires NoLineBreak(h0) && NoLineBreak(h1)
    ensures ReadLines(UniversalNewlines(h0 + "\n" + h1 + "\n\n" + body)) ==
      [h0 + "\n", h1 + "\n", "\n"] + ReadLines(UniversalNewlines(body))
  {
    var a, b, c := h0 + "\n", h1 + "\n", "\n";
    HeaderTranslate(h0, h1, body);
    var t := UniversalNewlines(body);
    TerminatedLine(h0);
    TerminatedLine(h1);
    TerminatedLine("");
    ReadLinesPrepend(c, t);
    ReadLinesPrepend(b, c + t);
    ReadLinesPrepend(a, b + (c + t));
    ThreeCons(a, b, c, ReadLines(t));
  }

  lemma ThreeCons(a: string, b: string, c: string, r: seq<string>)
    ensures [a] + ([b] + ([c] + r)) == [a, b, c] + r
  {
  }

  lemma TerminatedLine(h: string)
    requires NoLineBreak(h)
    ensures IsLine(h + "\n") && EndsLine(h + "\n")
  {
    forall i | 0 <= i < |h + "\n"| - 1
      ensures (h + "\n")[i] != '\n'
    {
      assert (h + "\n")[i] == h[i];
    }
  }

  /** A terminated line in front of a text reads as that line, then the
      text's lines. */
  lemma ReadLinesPrepend(line: string, t: string)
    requires IsLine(line) && EndsLine(line)
    ensures ReadLines(line + t) == [line] + ReadLines(t)
  {
    ReadLinesOne(line);
    ReadLinesAppend(line, t);
  }

  /** A line of whitespace, with its newline, strips to nothing; any other
      line does not. */
  lemma StripLineEmptyIff(h: string)
    ensures Strip(h + "\n") == "" <==> AllSpace(h)
  {
    StripEmptyIff(h + "\n");
    if !AllSpace(h) {
      var i :| 0 <= i < |h| && !IsSpace(h[i]);
      assert !IsSpace((h + "\n")[i]);
    }
  }

  /**
   * A file with two header lines, a blank line and a body: the scan stops at
   * the blank line (the second header line being non-blank), the URL is what
   * the two header lines set, and the body is the rest, stripped.
   */
  lemma TwoLineHeader(h0: string, h1: string, body: string)
    requires NoLineBreak(h0) && NoLineBreak(h1) && !AllSpace(h1)
    ensures ParseFile(h0 + "\n" + h1 + "\n\n" + body) ==
      (NextUrl(h1 + "\n", NextUrl(h0 + "\n", "")), Strip(UniversalNewlines(body)))
  {
    HeaderLines(h0, h1, body);
    var rest := ReadLines(UniversalNewlines(body));
    ReadLinesFacts(UniversalNewlines(body));
    var lines := [h0 + "\n", h1 + "\n", "\n"] + rest;
    TwoLineScan(lines, h0, h1);
    assert lines[3..] == rest;
  }

  /** The scan over two header lines and a blank line stops after the blank
      line with the URL the header lines set. */
  lemma TwoLineScan(lines: seq<string>, h0: string, h1: string)
    requires |lines| >= 3 && lines[0] == h0 + "\n" && lines[1] == h1 + "\n" && lines[2] == "\n"
    requires !AllSpace(h1)
    ensures Scan(lines, 0, "") == (NextUrl(h1 + "\n", NextUrl(h0 + "\n", "")), 3)
  {
    var u1 := NextUrl(h0 + "\n", "");
    var u2 := NextUrl(h1 + "\n", u1);
    StripLineEmptyIff(h1);
    assert !EndsHeader(lines, 0);
    assert !EndsHeader(lines, 1);
    assert Strip("\n") == "";
    assert EndsHeader(lines, 2);
    assert NextUrl("\n", u2) == u2;
    assert Scan(lines, 2, u2) == (u2, 3);
    assert Scan(lines, 0, "") == Scan(lines, 1, u1) == Scan(lines, 2, u2);
  }

  /** `"URL: " + u` sets the URL to `u`. */
  lemma UrlHeader(u: string, url: string)
    requires NoLineBreak(u) && Trimmed(u)
    ensures NextUrl("URL: " + u + "\n", url) == u
  {
    var stripped := Strip("URL: " + u + "\n");
    if u == "" {
      StripEmptyUrlLine();
    } else {
      StripUrlLine(u);
    }
    UrlKey(stripped);
  }

  /** A line beginning with `URL:` in capitals is a URL line. */
  lemma UrlKey(s: string)
    requires |s| >= 4 && s[..4] == "URL:"
    ensures IsUrlLine(s)
  {
    assert Lower("URL:") == "url:";
  }

  lemma StripEmptyUrlLine()
    ensures var stripped := Strip("URL: " + "" + "\n");
      |stripped| >= 4 && stripped[..4] == "URL:" && Strip(stripped[4..]) == ""
  {
    assert "URL: " + "" + "\n" == "URL:" + " \n";
    StripSuffixSpace("URL:", " \n");
    assert Strip("URL:")[4..] == "";
  }

  lemma StripUrlLine(u: string)
    requires NoLineBreak(u) && Trimmed(u) && u != ""
    ensures var stripped := Strip("URL: " + u + "\n");
      |stripped| >= 4 && stripped[..4] == "URL:" && Strip(stripped[4..]) == u
  {
    var head := "URL: " + u;
    assert Trimmed(head) by {
      assert head[0] == 'U';
      assert head[|head| - 1] == u[|u| - 1];
    }
    assert AllSpace("\n");
    StripSuffixSpace(head, "\n");
    assert head[..4] == "URL:";
    assert head[4..] == " " + u;
    StripOneSpace(u);
  }

  /** One leading space does not survive `strip`. */
  lemma StripOneSpace(u: string)
    requires Trimmed(u) && u != ""
    ensures Strip(" " + u) == u
  {
    assert LeadingSpace(" " + u) == 1;
    StripTrimmed(u);
    assert ContentEnd(" " + u) == |u| + 1 by {
      assert !IsSpace((" " + u)[|u|]);
    }
    assert (" " + u)[1..|u| + 1] == u;
  }

  /** Trailing whitespace does not survive `strip`. */
  lemma StripSuffixSpace(t: string, sp: string)
    requires Trimmed(t) && t != "" && AllSpace(sp)
    ensures Strip(t + sp) == t
  {
    var s := t + sp;
    assert LeadingSpace(s) == 0 by {
      assert !IsSpace(s[0]);
    }
    ContentEndSpace(t, sp);
    assert s[..|t|] == t;
  }

  lemma ContentEndSpace(t: string, sp: string)
    requires Trimmed(t) && t != "" && AllSpace(sp)
    ensures ContentEnd(t + sp) == |t|
  {
    var s := t + sp;
    var n := ContentEnd(s);
    assert !IsSpace(s[|t| - 1]);
  }

  /** A header line that is not a URL line leaves the URL as it was. */
  lemma OtherHeader(h: string, url: string)
    requires !IsUrlLine(Strip(h))
    ensures NextUrl(h, url) == url
  {
  }

  /** A file with a `URL:` line, a non-blank second header line and a blank
      line parses to that URL and the stripped body. */
  lemma UrlFile(u: string, rule: string, body: string)
    requires NoLineBreak(u) && Trimmed(u)
    requires NoLineBreak(rule) && Trimmed(rule) && rule != "" && !IsUrlLine(rule)
    requires forall i :: 0 <= i < |body| ==> body[i] != '\r'
    ensures ParseFile("URL: " + u + "\n" + rule + "\n\n" + body) == (u, Strip(body))
  {
    assert !IsSpace(rule[0]);
    TwoLineHeader("URL: " + u, rule, body);
    UrlHeader(u, "");
    StripSuffixSpace(rule, "\n");
    OtherHeader(rule + "\n", u);
    UniversalNewlinesPlain(body);
  }

  /** The documented example: `URL: http://x`, a rule, a blank line, a body. */
  lemma ParseExample()
    ensures ParseFile("URL: http://x\n===\n\nBody text here") == ("http://x", "Body text here")
  {
    var u, rule, body := "http://x", "===", "Body text here";
    ExampleSpelling();
    ExampleParts();
    UrlFile(u, rule, body);
  }

  lemma ExampleSpelling()
    ensures "URL: " + "http://x" + "\n" + "===" + "\n\n" + "Body text here" == "URL: http://x\n===\n\nBody text here"
  {
  }

  /** The example's pieces meet the shape the URL-file lemma asks for. */
  lemma ExampleParts()
    ensures NoLineBreak("http://x") && Trimmed("http://x")
    ensures NoLineBreak("===") && Trimmed("===") && !IsUrlLine("===")
    ensures forall i :: 0 <= i < |"Body text here"| ==> "Body text here"[i] != '\r'
    ensures Strip("Body text here") == "Body text here"
  {
    StripTrimmed("Body text here");
  }

  // ---------------------------------------------------------------------------
  // Reading back a raw text file
  // ---------------------------------------------------------------------------

  /**
   * A file saved by the initial build reads back with an empty URL (its header
   * key is `SOURCE:`, not `URL:`) and the saved text, stripped, as the body.
   */
  lemma RawRoundTrip(url: string, text: string)
    requires NoLineBreak(url)
    ensures ParseFile(RawFile(url, text)) == ("", Strip(UniversalNewlines(text)))
  {
    var h0 := "SOURCE: " + url;
    assert RawFile(url, text) == h0 + "\n" + Rule60 + "\n\n" + text;
    assert !IsSpace(Rule60[0]);
    TwoLineHeader(h0, Rule60, text);
    StripSourceLine(url);
    OtherHeader(h0 + "\n", "");
    StripRuleLine();
    OtherHeader(Rule60 + "\n", "");
  }

  lemma StripSourceLine(url: string)
    ensures !IsUrlLine(Strip("SOURCE: " + url + "\n"))
  {
    var a := "SOURCE: " + url + "\n";
    assert !IsSpace(a[0]);
    assert LeadingSpace(a) == 0;
    assert ContentEnd(a) >= 7 by {
      assert !IsSpace(a[6]);
    }
    assert Strip(a)[..4] == "SOUR";
  }

  lemma StripRuleLine()
    ensures !IsUrlLine(Strip(Rule60 + "\n"))
  {
    var b := Rule60 + "\n";
    assert !IsSpace(b[0]) && !IsSpace(b[59]);
    assert LeadingSpace(b) == 0;
    assert ContentEnd(b) >= 60;
    assert Strip(b)[0] == '=';
  }

  /** Text saved without carriage returns reads back as saved, stripped. */
  lemma RawRoundTripPlain(url: string, text: string)
    requires NoLineBreak(url)
    requires forall i :: 0 <= i < |text| ==> text[i] != '\r'
    ensures ParseFile(RawFile(url, text)) == ("", Strip(text))
  {
    RawRoundTrip(url, text);
    UniversalNewlinesPlain(text);
  }

  // ---------------------------------------------------------------------------
  // chunk_text (a second copy of the chunker)
  // ---------------------------------------------------------------------------

  /** Windows joined in two runs are the windows of the whole run, joined. */
  lemma JoinWindowsAppend(a: seq<seq<string>>, b: seq<seq<string>>)
    ensures Chunker.JoinWindows(a + b) == Chunker.JoinWindows(a) + Chunker.JoinWindows(b)
  {
  }

  /** The chunk the loop cuts at `start`: up to `wpc` words, joined by spaces. */
  function Piece(words: seq<string>, wpc: nat, start: nat): string
    requires start < |words|
  {
    var end := if start + wpc <= |words| then start + wpc else |words|;
    Join(words[start..end], " ")
  }

  /** The chunks the loop still has to produce from `start` on. */
  ghost function Pending(words: seq<string>, wpc: nat, wo: nat, start: nat): seq<string>
    requires wo < wpc
    decreases |words| - start
  {
    if start >= |words| then []
    else [Piece(words, wpc, start)] + Pending(words, wpc, wo, start + wpc - wo)
  }

  /** One turn of the loop moves one chunk from the pending ones to the done ones. */
  lemma PendingAdvance(done: seq<string>, all: seq<string>, words: seq<string>, wpc: nat, wo: nat, start: nat)
    requires wo < wpc && start < |words|
    requires done + Pending(words, wpc, wo, start) == all
    ensures (done + [Piece(words, wpc, start)]) + Pending(words, wpc, wo, start + wpc - wo) == all
  {
    AppendAssoc(done, [Piece(words, wpc, start)], Pending(words, wpc, wo, start + wpc - wo));
  }

  /** Once the start passes the last word, nothing is pending. */
  lemma PendingDone(done: seq<string>, all: seq<string>, words: seq<string>, wpc: nat, wo: nat, start: nat)
    requires wo < wpc && start >= |words|
    requires done + Pending(words, wpc, wo, start) == all
    ensures done == all
  {
    AppendEmpty(done);
  }

  /** They are the joined windows from `start` on. */
  lemma {:induction false} PendingWindows(words: seq<string>, wpc: nat, wo: nat, start: nat)
    requires wo < wpc
    ensures Pending(words, wpc, wo, start) == Chunker.JoinWindows(Chunker.ChunksFrom(words, wpc, wo, start))
    decreases |words| - start
  {
    if start < |words| {
      PendingWindows(words, wpc, wo, start + wpc - wo);
      var window := Chunker.Window(words, start, wpc);
      var rest := Chunker.ChunksFrom(words, wpc, wo, start + wpc - wo);
      assert Chunker.ChunksFrom(words, wpc, wo, start) == [window] + rest;
      JoinWindowsAppend([window], rest);
      assert Piece(words, wpc, start) == Join(window, " ");
    }
  }

  /**
   * This script's own `chunk_text`, with its fixed 500/50 token sizes and its
   * loop as written; it produces exactly the chunks of the initial build's
   * chunker at those sizes.
   */
  method ChunkText(text: string) returns (chunks: seq<string>)
    ensures chunks == Chunker.ChunkText(text, Chunker.ChunkSize, Chunker.ChunkOverlap)
  {
    var words := Words(text);
    if |words| == 0 {
      Chunker.ChunkTextEmptyIff(text, Chunker.ChunkSize, Chunker.ChunkOverlap);
      return [];
    }
    var wpc := Chunker.TokensToWords(Chunker.ChunkSize);
    var wo := Chunker.TokensToWords(Chunker.ChunkOverlap);
    Chunker.DefaultWordCounts();
    chunks := ChunkLoop(words, wpc, wo);
  }

  /** The `while` loop of `chunk_text` over a non-empty word list. */
  method ChunkLoop(words: seq<string>, wpc: nat, wo: nat) returns (chunks: seq<string>)
    requires wo < wpc && |words| > 0
    ensures chunks == Chunker.JoinWindows(Chunker.ChunksFrom(words, wpc, wo, 0))
  {
    ghost var all := Pending(words, wpc, wo, 0);
    chunks := [];
    var start: nat := 0;
    while start < |words|
      invariant chunks + Pending(words, wpc, wo, start) == all
      decreases |words| - start
    {
      var chunk := Piece(words, wpc, start);
      PendingAdvance(chunks, all, words, wpc, wo, start);
      chunks := chunks + [chunk];
      start := start + wpc - wo;
      if start >= |words| {
        break;
      }
    }
    PendingDone(chunks, all, words, wpc, wo, start);
    PendingWindows(words, wpc, wo, 0);
  }

  // ---------------------------------------------------------------------------
  // The update
  // ---------------------------------------------------------------------------

  /** One `FILES` entry: file name, the source name its chunks get, and the
      source it replaces, if any. */
  datatype FileSpec = FileSpec(filename: string, sourceName: string, replacing: Option<string>)

  const Files: seq<FileSpec> := [
    FileSpec("comedy_history_101.txt", "comedy_history_101", None),
    FileSpec("original_cin_full.txt", "original_cin", Some("original_cin")),
    FileSpec("imdb_bio_full.txt", "imdb_bio", Some("imdb")),
    FileSpec("google_doc_catalog.txt", "google_doc_catalog", None)
  ]

  /** `sources_to_replace`. */
  function Replaced(table: seq<FileSpec>): set<string> {
    set f | f in table && f.replacing.Some? :: f.replacing.value
  }

  /** Every stored metadata has a `source_name` (reading it otherwise fails). */
  predicate NamesKnown(store: Store) {
    forall id :: id in store ==> store[id].metadata.sourceName.Some?
  }

  predicate NamedIn(e: Entry, names: set<string>) {
    e.metadata.sourceName.Some? && e.metadata.sourceName.value in names
  }

  /** `ids_to_delete`. */
  function DeleteSet(store: Store, names: set<string>): set<string> {
    set id | id in store && NamedIn(store[id], names)
  }

  /** The store after `collection.delete(ids=ids_to_delete)`. */
  function Purge(store: Store, names: set<string>): (r: Store)
    ensures r.Keys <= store.Keys
  {
    store - DeleteSet(store, names)
  }

  /** Exactly the entries of the replaced sources go; the rest are kept as is. */
  lemma PurgeSpec(store: Store, names: set<string>)
    ensures forall id :: id in Purge(store, names) <==> id in store && !NamedIn(store[id], names)
    ensures forall id :: id in Purge(store, names) ==> Purge(store, names)[id] == store[id]
  {
  }

  /** The records one file contributes: none when the file is missing or its
      body is empty. */
  function FileRecords(f: FileSpec, files: map<string, string>): seq<Record> {
    if f.filename !in files then []
    else
      var (url, body) := ParseFile(files[f.filename]);
      if body == "" then []
      else SourceRecords(f.sourceName, url, Chunker.ChunkText(body, Chunker.ChunkSize, Chunker.ChunkOverlap))
  }

  /** The file loop: add each file's records, counting them in `total_added`. */
  function AddFiles(store: Store, table: seq<FileSpec>, files: map<string, string>): (Store, nat)
    decreases |table|
  {
    if |table| == 0 then (store, 0)
    else
      var recs := FileRecords(table[0], files);
      var rest := AddFiles(AddAll(store, recs), table[1..], files);
      (rest.0, |recs| + rest.1)
  }

  /** Reference: every file's records, in table order. */
  function Added(table: seq<FileSpec>, files: map<string, string>): seq<Record>
    decreases |table|
  {
    if |table| == 0 then [] else FileRecords(table[0], files) + Added(table[1..], files)
  }

  /**
   * The whole `main`: fails (a missing `source_name` key) unless every stored
   * entry names its source; otherwise deletes the replaced sources first and
   * then adds the files, returning the new store and `total_added`.
   */
  function Update(store: Store, table: seq<FileSpec>, files: map<string, string>): Option<(Store, nat)> {
    if !NamesKnown(store) then None
    else Some(AddFiles(Purge(store, Replaced(table)), table, files))
  }

  lemma {:induction false} AddFilesSpec(store: Store, table: seq<FileSpec>, files: map<string, string>)
    ensures AddFiles(store, table, files) == (AddAll(store, Added(table, files)), |Added(table, files)|)
    decreases |table|
  {
    if |table| > 0 {
      var recs := FileRecords(table[0], files);
      var rest := Added(table[1..], files);
      AddFilesUnfold(store, table, files);
      AddFilesSpec(AddAll(store, recs), table[1..], files);
      AddAllConcat(store, recs, rest);
    }
  }

  /** One step of the file loop and of its reference. */
  lemma AddFilesUnfold(store: Store, table: seq<FileSpec>, files: map<string, string>)
    requires |table| > 0
    ensures AddFiles(store, table, files).0 == AddFiles(AddAll(store, FileRecords(table[0], files)), table[1..], files).0
    ensures AddFiles(store, table, files).1 == |FileRecords(table[0], files)| + AddFiles(AddAll(store, FileRecords(table[0], files)), table[1..], files).1
    ensures Added(table, files) == FileRecords(table[0], files) + Added(table[1..], files)
  {
  }

  /** The update, stated at once: the added records' first entries over the
      purged store, and `total_added` the number of records added. */
  lemma UpdateSpec(store: Store, table: seq<FileSpec>, files: map<string, string>)
    ensures Update(store, table, files).None? <==> !NamesKnown(store)
    ensures NamesKnown(store) ==>
      Update(store, table, files) ==
        Some((FirstEntries(Added(table, files)) + Purge(store, Replaced(table)), |Added(table, files)|))
  {
    AddFilesSpec(Purge(store, Replaced(table)), table, files);
    AddAllSpec(Purge(store, Replaced(table)), Added(table, files));
  }

  /** Each added record belongs to a file whose records it is among. */
  lemma {:induction false} AddedMember(table: seq<FileSpec>, files: map<string, string>, r: Record)
    requires r in Added(table, files)
    ensures exists k :: 0 <= k < |table| && r in FileRecords(table[k], files)
    decreases |table|
  {
    if r !in FileRecords(table[0], files) {
      AddedMember(table[1..], files, r);
      var k :| 0 <= k < |table[1..]| && r in FileRecords(table[1..][k], files);
      assert table[1..][k] == table[k + 1];
    }
  }

  /** A file's records carry the file's source name. */
  lemma FileRecordsNamed(f: FileSpec, files: map<string, string>, r: Record)
    requires r in FileRecords(f, files)
    ensures r.metadata.sourceName == Some(f.sourceName)
  {
  }

  /** Entries of sources that are not replaced stay exactly as they were. */
  lemma UpdateKeeps(store: Store, table: seq<FileSpec>, files: map<string, string>, id: string)
    requires Update(store, table, files).Some?
    requires id in store && !NamedIn(store[id], Replaced(table))
    ensures id in Update(store, table, files).value.0
    ensures Update(store, table, files).value.0[id] == store[id]
  {
    UpdateSpec(store, table, files);
  }

  /** Whatever remains under a replaced source was written by this update. */
  lemma UpdateReplaces(store: Store, table: seq<FileSpec>, files: map<string, string>, id: string)
    requires Update(store, table, files).Some?
    requires id in Update(store, table, files).value.0
    requires NamedIn(Update(store, table, files).value.0[id], Replaced(table))
    ensures id in FirstEntries(Added(table, files))
    ensures Update(store, table, files).value.0[id] == FirstEntries(Added(table, files))[id]
    ensures exists r :: r in Added(table, files) && r.id == id && Update(store, table, files).value.0[id] == EntryOf(r)
  {
    UpdateSpec(store, table, files);
    var added := Added(table, files);
    PurgeSpec(store, Replaced(table));
    assert id !in Purge(store, Replaced(table));
    assert id in FirstEntries(added);
    FirstEntriesFrom(added, id);
  }

  /** Each processed file adds one record per chunk of its body, under
      `source_name_chunk_{i:04d}` with `chunk_index = i` and the parsed URL. */
  lemma FileRecordsFacts(f: FileSpec, files: map<string, string>)
    requires f.filename in files && ParseFile(files[f.filename]).1 != ""
    ensures var (url, body) := ParseFile(files[f.filename]);
      var chunks := Chunker.ChunkText(body, Chunker.ChunkSize, Chunker.ChunkOverlap);
      |FileRecords(f, files)| == |chunks| > 0 &&
      forall i :: 0 <= i < |chunks| ==>
        FileRecords(f, files)[i] == Record(ChunkId(f.sourceName, i), chunks[i], Metadata(Some(url), Some(f.sourceName), Some(i)))
  {
    var (url, body) := ParseFile(files[f.filename]);
    BodyHasChunks(body);
    assert FileRecords(f, files) == SourceRecords(f.sourceName, url, Chunker.ChunkText(body, Chunker.ChunkSize, Chunker.ChunkOverlap));
  }

  /** A non-empty parsed body makes at least one chunk. */
  lemma BodyHasChunks(body: string)
    requires body != "" && Trimmed(body)
    ensures |Chunker.ChunkText(body, Chunker.ChunkSize, Chunker.ChunkOverlap)| > 0
  {
    WordsNonEmpty(body);
    Chunker.ChunkTextEmptyIff(body, Chunker.ChunkSize, Chunker.ChunkOverlap);
  }

  /** A non-empty trimmed text has a word. */
  lemma WordsNonEmpty(s: string)
    requires s != "" && Trimmed(s)
    ensures Words(s) != []
  {
    WordsEmptyIff(s);
    assert !IsSpace(s[0]);
  }

  /** `total_added` sums the files' chunk counts; skipped files count zero. */
  lemma {:induction false} TotalAdded(table: seq<FileSpec>, files: map<string, string>)
    ensures |Added(table, files)| == ChunkTotal(table, files)
    decreases |table|
  {
    if |table| > 0 {
      TotalAdded(table[1..], files);
      var f := table[0];
      if f.filename in files && ParseFile(files[f.filename]).1 != "" {
        FileRecordsFacts(f, files);
      }
    }
  }

  /** Reference: the number of chunks of each file that is present and has a
      non-empty body. */
  function ChunkTotal(table: seq<FileSpec>, files: map<string, string>): nat
    decreases |table|
  {
    if |table| == 0 then 0
    else
      var f := table[0];
      var n := if f.filename in files && ParseFile(files[f.filename]).1 != ""
        then |Chunker.ChunkText(ParseFile(files[f.filename]).1, Chunker.ChunkSize, Chunker.ChunkOverlap)|
        else 0;
      n + ChunkTotal(table[1..], files)
  }

  /**
   * Deletion comes before any file is read: a replaced source none of whose
   * files produce records (missing file, empty body) is left with no entries.
   */
  lemma ReplacedWithoutFileIsEmpty(store: Store, table: seq<FileSpec>, files: map<string, string>, name: string)
    requires Update(store, table, files).Some?
    requires name in Replaced(table)
    requires forall k :: 0 <= k < |table| && table[k].sourceName == name ==> FileRecords(table[k], files) == []
    ensures forall id :: id in Update(store, table, files).value.0 ==>
      Update(store, table, files).value.0[id].metadata.sourceName != Some(name)
  {
    UpdateSpec(store, table, files);
    var added := Added(table, files);
    var s := Update(store, table, files).value.0;
    forall id | id in s
      ensures s[id].metadata.sourceName != Some(name)
    {
      if id !in Purge(store, Replaced(table)) {
        FirstEntriesFrom(added, id);
        var r :| r in added && r.id == id && FirstEntries(added)[id] == EntryOf(r);
        AddedMember(table, files, r);
        var k :| 0 <= k < |table| && r in FileRecords(table[k], files);
        FileRecordsNamed(table[k], files, r);
      }
    }
  }

  /** With the configured table, the thin `imdb` source is gone after any
      successful update. */
  lemma ImdbGone(store: Store, files: map<string, string>)
    requires Update(store, Files, files).Some?
    ensures forall id :: id in Update(store, Files, files).value.0 ==>
      Update(store, Files, files).value.0[id].metadata.sourceName != Some("imdb")
  {
    assert Files[2] in Files;
    assert "imdb" in Replaced(Files);
    NoImdbFile();
    ReplacedWithoutFileIsEmpty(store, Files, files, "imdb");
  }

  /** No configured file is itself named `imdb`. */
  lemma NoImdbFile()
    ensures forall k :: 0 <= k < |Files| ==> Files[k].sourceName != "imdb"
  {
    forall k | 0 <= k < |Files|
      ensures Files[k].sourceName != "imdb"
    {
      assert |Files[k].sourceName| != |"imdb"|;
    }
  }

  /** Purging what a list of records would re-add, over a store with nothing
      to purge, and adding them again gives back the same store. */
  lemma RepurgeReadd(fa: Store, t: Store, names: set<string>)
    requires forall id :: id in t ==> !NamedIn(t[id], names)
    ensures fa + Purge(fa + t, names) == fa + t
  {
    var x := fa + t;
    var l := fa + Purge(x, names);
    assert l.Keys == x.Keys;
    forall id | id in x
      ensures l[id] == x[id]
    {
    }
  }

  /** Running the update a second time with the same files changes nothing:
      the replaced sources are deleted and re-added identically, and the other
      files' ids are already present. */
  lemma UpdateIdempotent(store: Store, table: seq<FileSpec>, files: map<string, string>)
    requires Update(store, table, files).Some?
    ensures Update(Update(store, table, files).value.0, table, files) == Update(store, table, files)
  {
    var names := Replaced(table);
    var added := Added(table, files);
    var fa := FirstEntries(added);
    var t := Purge(store, names);
    UpdateSpec(store, table, files);
    var s1 := Update(store, table, files).value.0;
    assert s1 == fa + t;
    forall id | id in s1
      ensures s1[id].metadata.sourceName.Some?
    {
      if id !in t {
        FirstEntriesFrom(added, id);
        var r :| r in added && r.id == id && fa[id] == EntryOf(r);
        AddedMember(table, files, r);
        var k :| 0 <= k < |table| && r in FileRecords(table[k], files);
        FileRecordsNamed(table[k], files, r);
      }
    }
    UpdateSpec(s1, table, files);
    RepurgeReadd(fa, t, names);
  }
}
