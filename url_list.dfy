/**
 * The URL list files shared by the stages: reading one the way
 * `[line.strip() for line in f if line.strip()]` does (the collector, the
 * retriever), writing one line per URL (the collector's output), and the
 * `"\n".join(...)` the seed-list sync appends.
 */
module UrlList {

  /** Python's `str.isspace` characters, which `str.strip()` with no argument removes. */
  predicate IsSpace(c: char)
  {
    || ('\U{9}' <= c <= '\U{D}')
    || ('\U{1C}' <= c <= ' ')
    || c == '\U{85}' || c == '\U{A0}' || c == '\U{1680}'
    || ('\U{2000}' <= c <= '\U{200A}')
    || c == '\U{2028}' || c == '\U{2029}' || c == '\U{202F}' || c == '\U{205F}' || c == '\U{3000}'
  }

  /** A text-mode file read with universal newlines ends a line at `\n`, `\r` or `\r\n`. */
  predicate IsLineBreak(c: char)
  {
    c == '\n' || c == '\r'
  }

  predicate NoLineBreaks(s: string)
  {
    forall k :: 0 <= k < |s| ==> !IsLineBreak(s[k])
  }

  /** Neither end of `s` is whitespace. */
  predicate IsStripped(s: string)
  {
    s == [] || (!IsSpace(s[0]) && !IsSpace(s[|s| - 1]))
  }

  predicate AllSpace(s: string)
  {
    forall k :: 0 <= k < |s| ==> IsSpace(s[k])
  }

  /** The length of the longest whitespace prefix. */
  function LeadingSpaces(s: string): (n: nat)
    ensures n <= |s| && AllSpace(s[..n])
    ensures n < |s| ==> !IsSpace(s[n])
  {
    if s == [] || !IsSpace(s[0]) then 0
    else
      var n := 1 + LeadingSpaces(s[1..]);
      assert s[..n] == [s[0]] + s[1..][..n - 1];
      n
  }

  /** The length of the longest whitespace suffix. */
  function TrailingSpaces(s: string): (n: nat)
    ensures n <= |s| && AllSpace(s[|s| - n..])
    ensures n < |s| ==> !IsSpace(s[|s| - 1 - n])
  {
    if s == [] || !IsSpace(s[|s| - 1]) then 0
    else
      var rest := s[..|s| - 1];
      var n := 1 + TrailingSpaces(rest);
      assert s[|s| - n..] == rest[|rest| - (n - 1)..] + [s[|s| - 1]];
      n
  }

  /** `str.strip()`: whitespace removed from both ends. */
  function Strip(s: string): (r: string)
    ensures IsStripped(r)
  {
    var a := LeadingSpaces(s);
    var rest := s[a..];
    var b := TrailingSpaces(rest);
    rest[..|rest| - b]
  }

  /** `Strip(s)` is the slice of `s` after its leading whitespace, with nothing but whitespace after it. */
  lemma StripSlice(s: string)
    ensures var r, i := Strip(s), LeadingSpaces(s);
      i + |r| <= |s| && s[i..i + |r|] == r && AllSpace(s[..i]) && AllSpace(s[i + |r|..])
  {
    StripIsMiddle(s);
    StripLeavesSpaceAfter(s);
  }

  /** `Strip(s)` starts right after the leading whitespace. */
  lemma StripIsMiddle(s: string)
    ensures var r, i := Strip(s), LeadingSpaces(s);
      i + |r| <= |s| && s[i..i + |r|] == r
  {
    var a := LeadingSpaces(s);
    var rest := s[a..];
    var m := |rest| - TrailingSpaces(rest);
    DropTake(s, a, m);
  }

  /** Slicing a slice is one slice. */
  lemma DropTake<T>(s: seq<T>, a: nat, m: nat)
    requires a + m <= |s|
    ensures s[a..][..m] == s[a..a + m]
  {
  }

  /** Only whitespace follows `Strip(s)` in `s`. */
  lemma StripLeavesSpaceAfter(s: string)
    ensures var r, i := Strip(s), LeadingSpaces(s);
      i + |r| <= |s| && AllSpace(s[i + |r|..])
  {
    var a := LeadingSpaces(s);
    var rest := s[a..];
    var m := |rest| - TrailingSpaces(rest);
    DropDrop(s, a, m);
  }

  /** Dropping from a suffix is one drop. */
  lemma DropDrop<T>(s: seq<T>, a: nat, m: nat)
    requires a + m <= |s|
    ensures s[a..][m..] == s[a + m..]
  {
  }

  /** Stripping a stripped string changes nothing. */
  lemma StripStripped(s: string)
    requires IsStripped(s)
    ensures Strip(s) == s
  {
    if s != [] {
      assert LeadingSpaces(s) == 0;
      assert TrailingSpaces(s) == 0;
    }
  }

  /** The position of the first line break, or `|s|` when there is none. */
  function FirstBreak(s: string): (i: nat)
    ensures i <= |s| && NoLineBreaks(s[..i])
    ensures i < |s| ==> IsLineBreak(s[i])
  {
    if s == [] || IsLineBreak(s[0]) then 0
    else
      var i := 1 + FirstBreak(s[1..]);
      assert s[..i] == [s[0]] + s[1..][..i - 1];
      i
  }

  /** The pieces of `s` between line breaks, the last one possibly empty. */
  function Lines(s: string): (ls: seq<string>)
    ensures |ls| > 0
    ensures forall k :: 0 <= k < |ls| ==> NoLineBreaks(ls[k])
    decreases |s|
  {
    var i := FirstBreak(s);
    if i == |s| then [s] else [s[..i]] + Lines(s[i + 1..])
  }

  /** The comprehension's filter and map: each line stripped, blank ones dropped, order kept. */
  function NonBlankStripped(lines: seq<string>): (urls: seq<string>)
    ensures |urls| <= |lines|
    ensures forall k :: 0 <= k < |urls| ==> urls[k] != "" && IsStripped(urls[k])
  {
    if lines == [] then []
    else
      var r, rest := Strip(lines[0]), NonBlankStripped(lines[1..]);
      if r != "" then [r] + rest else rest
  }

  /** `[line.strip() for line in f if line.strip()]` over a file's content. */
  function ReadUrls(content: string): (urls: seq<string>)
  {
    NonBlankStripped(Lines(content))
  }

  /** What `ReadUrls` can return: non-empty URLs without surrounding whitespace or line breaks. */
  predicate IsUrlList(urls: seq<string>)
  {
    forall k :: 0 <= k < |urls| ==> urls[k] != "" && IsStripped(urls[k]) && NoLineBreaks(urls[k])
  }

  /** One `url + "\n"` per URL, as the collector writes its output. */
  function WriteLines(urls: seq<string>): string
  {
    if urls == [] then "" else urls[0] + "\n" + WriteLines(urls[1..])
  }

  /** `"\n".join(parts)`. */
  function Join(parts: seq<string>): string
  {
    if parts == [] then ""
    else if |parts| == 1 then parts[0]
    else parts[0] + "\n" + Join(parts[1..])
  }

  lemma {:induction false} NoLineBreaksSlice(s: string, i: nat, j: nat)
    requires NoLineBreaks(s) && i <= j <= |s|
    ensures NoLineBreaks(s[i..j])
  {
    assert forall k :: 0 <= k < j - i ==> s[i..j][k] == s[i + k];
  }

  /** Stripping never introduces a line break. */
  lemma StripKeepsNoLineBreaks(s: string)
    requires NoLineBreaks(s)
    ensures NoLineBreaks(Strip(s))
  {
    var r := Strip(s);
    StripSlice(s);
    var i := LeadingSpaces(s);
    NoLineBreaksSlice(s, i, i + |r|);
  }

  /** What a URL-list file yields is a URL list. */
  lemma {:induction false} NonBlankStrippedIsUrlList(lines: seq<string>)
    requires forall k :: 0 <= k < |lines| ==> NoLineBreaks(lines[k])
    ensures IsUrlList(NonBlankStripped(lines))
  {
    if lines != [] {
      StripKeepsNoLineBreaks(lines[0]);
      NonBlankStrippedIsUrlList(lines[1..]);
    }
  }

  lemma ReadUrlsIsUrlList(content: string)
    ensures IsUrlList(ReadUrls(content))
  {
    NonBlankStrippedIsUrlList(Lines(content));
  }

  lemma {:induction false} NonBlankStrippedAppend(a: seq<string>, b: seq<string>)
    ensures NonBlankStripped(a + b) == NonBlankStripped(a) + NonBlankStripped(b)
  {
    if a != [] {
      assert (a + b)[1..] == a[1..] + b;
      NonBlankStrippedAppend(a[1..], b);
    } else {
      assert a + b == b;
    }
  }

  /** `FirstBreak` is the one position with no break before it and a break (or the end) at it. */
  lemma {:induction false} FirstBreakIs(s: string, j: nat)
    requires j <= |s| && NoLineBreaks(s[..j])
    requires j < |s| ==> IsLineBreak(s[j])
    ensures FirstBreak(s) == j
  {
    if j > 0 {
      assert s[..j][0] == s[0];
      assert s[1..][..j - 1] == s[..j][1..];
      FirstBreakIs(s[1..], j - 1);
    }
  }

  /** A line break splits the lines of what comes before it from the lines of what comes after. */
  lemma {:induction false} LinesAround(a: string, b: string)
    ensures Lines(a + "\n" + b) == Lines(a) + Lines(b)
    decreases |a|
  {
    var s := a + "\n" + b;
    var i := FirstBreak(a);
    assert s[..i] == a[..i];
    if i == |a| {
      assert a[..i] == a;
      FirstBreakIs(s, |a|);
      assert s[|a| + 1..] == b;
      calc {
        Lines(s);
        [s[..|a|]] + Lines(s[|a| + 1..]);
        [a] + Lines(b);
        Lines(a) + Lines(b);
      }
    } else {
      var a' := a[i + 1..];
      FirstBreakIs(s, i);
      assert s[i + 1..] == a' + "\n" + b;
      calc {
        Lines(s);
        [a[..i]] + Lines(a' + "\n" + b);
        { LinesAround(a', b); }
        [a[..i]] + (Lines(a') + Lines(b));
        ([a[..i]] + Lines(a')) + Lines(b);
        Lines(a) + Lines(b);
      }
    }
  }

  /** A string without line breaks is a single line. */
  lemma OneLine(s: string)
    requires NoLineBreaks(s)
    ensures Lines(s) == [s]
  {
    assert s[..|s|] == s;
    FirstBreakIs(s, |s|);
  }

  lemma UrlListTail(urls: seq<string>)
    requires IsUrlList(urls) && urls != []
    ensures IsUrlList(urls[1..])
  {
    assert forall k :: 0 <= k < |urls| - 1 ==> urls[1..][k] == urls[k + 1];
  }

  /** The collector's output file reads back as exactly the URLs it wrote. */
  lemma {:induction false} ReadWriteRoundTrip(urls: seq<string>)
    requires IsUrlList(urls)
    ensures ReadUrls(WriteLines(urls)) == urls
  {
    if urls == [] {
      OneLine("");
    } else {
      var u, rest := urls[0], urls[1..];
      var tail := Lines(WriteLines(rest));
      LinesAround(u, WriteLines(rest));
      OneLine(u);
      StripStripped(u);
      UrlListTail(urls);
      ReadWriteRoundTrip(rest);
      NonBlankStrippedAppend([u], tail);
      assert NonBlankStripped([u]) == [u];
      assert urls == [u] + rest;
    }
  }

  /** Joined parts without line breaks read back as the parts, stripped, blank ones dropped. */
  lemma {:induction false} ReadJoin(parts: seq<string>)
    requires forall k :: 0 <= k < |parts| ==> NoLineBreaks(parts[k])
    ensures ReadUrls(Join(parts)) == NonBlankStripped(parts)
  {
    if parts == [] {
      OneLine("");
    } else if |parts| == 1 {
      OneLine(parts[0]);
    } else {
      var p, rest := parts[0], parts[1..];
      var j := Join(rest);
      assert Join(parts) == p + "\n" + j;
      assert parts == [p] + rest;
      calc {
        ReadUrls(Join(parts));
        NonBlankStripped(Lines(p + "\n" + j));
        { LinesAround(p, j); OneLine(p); }
        NonBlankStripped([p] + Lines(j));
        { NonBlankStrippedAppend([p], Lines(j)); }
        NonBlankStripped([p]) + NonBlankStripped(Lines(j));
        { ReadJoin(rest); }
        NonBlankStripped([p]) + NonBlankStripped(rest);
        { NonBlankStrippedAppend([p], rest); }
        NonBlankStripped(parts);
      }
    }
  }

  /** Appending `"\n" + "\n".join(parts)` to a file adds the parts' URLs after the file's own. */
  lemma AppendedUrls(content: string, parts: seq<string>)
    requires forall k :: 0 <= k < |parts| ==> NoLineBreaks(parts[k])
    ensures ReadUrls(content + "\n" + Join(parts)) == ReadUrls(content) + NonBlankStripped(parts)
  {
    LinesAround(content, Join(parts));
    NonBlankStrippedAppend(Lines(content), Lines(Join(parts)));
    ReadJoin(parts);
  }

  /** Reading leaves a list that is already stripped, non-blank and one URL per line as it is. */
  lemma {:induction false} NonBlankStrippedOfUrlList(urls: seq<string>)
    requires IsUrlList(urls)
    ensures NonBlankStripped(urls) == urls
  {
    if urls != [] {
      StripStripped(urls[0]);
      UrlListTail(urls);
      NonBlankStrippedOfUrlList(urls[1..]);
      NonBlankStrippedAppend([urls[0]], urls[1..]);
      assert urls == [urls[0]] + urls[1..];
    }
  }
}
