/** What is printed for the clipboard is read back: set_clipboard_cut_files against get_copied_files_as_str and the
    loops after it (src/utils/utils.c). */
module ClipboardFiles {
  import opened Bytes
  import opened UrlCodec
  import opened CutLists
  import opened CopiedLists

  function NonEmpty(paths: seq<bytes>): seq<bytes> {
    if paths == [] then []
    else NonEmpty(paths[..|paths| - 1]) + if paths[|paths| - 1] == [] then [] else [paths[|paths| - 1]]
  }

  predicate ShortPath(p: bytes) {
    NulFree(p) && |SCHEME + Encode(p)| <= MAX_LINE
  }

  /** The lines of the printed list. */
  function UrlLines(paths: seq<bytes>): seq<bytes> {
    seq(|paths|, i requires 0 <= i < |paths| => SCHEME + Encode(paths[i]))
  }

  lemma {:induction false} UrlsOfNonEmpty(paths: seq<bytes>)
    ensures |Urls(paths)| == |NonEmpty(paths)|
    ensures forall i | 0 <= i < |Urls(paths)| :: Urls(paths)[i] == Encode(NonEmpty(paths)[i])
    ensures forall p | p in NonEmpty(paths) :: p != [] && p in paths
  {
    if paths != [] {
      var p := paths[|paths| - 1];
      UrlsOfNonEmpty(paths[..|paths| - 1]);
      UnescapeEncode(p);
    }
  }

  /** Printing lines one after the other and splitting gives the lines. */
  lemma {:induction false} SplitPrinted(head: bytes, urls: seq<bytes>, lines: seq<bytes>)
    requires LF !in head && |urls| == |lines|
    requires forall i | 0 <= i < |urls| :: |urls[i]| <= MAX_URL && lines[i] == SCHEME + urls[i] && LF !in lines[i]
    ensures SplitLines(head + EntriesOf(urls)) == [head] + lines
  {
    hide SplitLines, Entry, Decode, Encode;
    if urls == [] {
      assert head + [] == head && [head] + lines == [head];
      SplitNothing(head);
    } else {
      var front, u, l := urls[..|urls| - 1], urls[|urls| - 1], lines[|lines| - 1];
      SplitPrinted(head, front, lines[..|lines| - 1]);
      EntryIsLine(u, l);
      assert head + (EntriesOf(front) + Entry(u)) == (head + EntriesOf(front)) + [LF] + l;
      SplitLast(head + EntriesOf(front), l);
      assert [head] + lines == ([head] + lines[..|lines| - 1]) + [l];
    }
  }

  lemma EntryIsLine(u: bytes, l: bytes)
    requires |u| <= MAX_URL && l == SCHEME + u
    ensures Entry(u) == [LF] + l
  {
    assert u[..|u|] == u;
  }

  lemma {:induction false} SplitLast(a: bytes, l: bytes)
    requires LF !in l
    ensures SplitLines(a + [LF] + l) == SplitLines(a) + [l]
  {
    var s := a + [LF] + l;
    if a == [] {
      assert s[1..] == l;
      SplitNothing(l);
    } else {
      assert s[1..] == a[1..] + [LF] + l;
      SplitLast(a[1..], l);
    }
  }

  lemma {:induction false} DecodeUrlLines(paths: seq<bytes>)
    requires forall p | p in paths :: p != [] && ShortPath(p)
    ensures DecodeAll(UrlLines(paths)) == paths
  {
    hide Encode, Decode, DecodeAll, CStr;
    DecodeFirst(UrlLines(paths));
    if paths != [] {
      var p := paths[0];
      assert p in paths;
      UrlRoundTrip(p);
      UnescapeEncode(p);
      assert p <= p;
      CStrIs(p, p);
      DecodeUrlLines(paths[1..]);
      assert UrlLines(paths)[1..] == UrlLines(paths[1..]);
      assert [p] + paths[1..] == paths;
    }
  }

  /** Printing a list of paths whose encoded lines have at most 2047 bytes and parsing it gives the non-empty paths
      back, in order; the buffer is filled exactly, the printed text is one C string, and its lines are such that the
      loops can handle them. */
  lemma ClipboardRoundTrip(paths: seq<bytes>)
    requires forall p | p in paths :: ShortPath(p)
    ensures var text := Printed(Urls(paths));
            && CopiedList(text) == (if NonEmpty(paths) == [] then None else Some(NonEmpty(paths)))
            && |text| + 1 == TotLen(Urls(paths))
            && LinesOk(text) && NulFree(text)
            && (paths != [] && (forall p | p in paths :: p != []) ==> CopiedList(text) == Some(paths))
  {
    hide Encode, Decode, SplitLines, DecodeAll, EntriesOf, TotLen, Urls, NonEmpty, ShortPath, NulFree;
    var q := NonEmpty(paths);
    var urls, lines := Urls(paths), UrlLines(q);
    if forall p | p in paths :: p != [] {
      AllNonEmpty(paths);
    }
    FilledExactly(urls);
    UrlFacts(paths);
    SplitPrinted(CUT, urls, lines);
    assert ([CUT] + lines)[1..] == lines;
    DecodeUrlLines(q);
    CutClean();
    PrintedClean(CUT, urls, lines);
  }

  /** The printed text, line by line: "cut", and the file URL of every path that is not empty, in order. */
  lemma PrintedLines(paths: seq<bytes>)
    requires forall p | p in paths :: ShortPath(p)
    ensures var q, lines := NonEmpty(paths), SplitLines(Printed(Urls(paths)));
            && |lines| == 1 + |q| && lines[0] == Ascii("cut")
            && forall i | 0 <= i < |q| :: lines[1 + i] == Ascii("file://") + Encode(q[i])
  {
    hide Encode, Decode, SplitLines, EntriesOf, TotLen, Urls, NonEmpty, ShortPath, NulFree, Ascii;
    UrlFacts(paths);
    CutClean();
    SplitPrinted(CUT, Urls(paths), UrlLines(NonEmpty(paths)));
    HeadersSpelled();
    SchemeSpelled();
  }

  /** A list without empty paths comes back as it was. */
  lemma {:induction false} AllNonEmpty(paths: seq<bytes>)
    requires forall p | p in paths :: p != []
    ensures NonEmpty(paths) == paths
  {
    if paths != [] {
      var front, p := paths[..|paths| - 1], paths[|paths| - 1];
      assert p in paths && forall q | q in front :: q in paths;
      AllNonEmpty(front);
      assert paths == front + [p];
    }
  }

  lemma CutClean()
    ensures NulFree(CUT) && LF !in CUT && |CUT| <= MAX_LINE && CUT != SCHEME
  {
  }

  /** The URLs of short paths fit their lines. */
  lemma UrlFacts(paths: seq<bytes>)
    requires forall p | p in paths :: ShortPath(p)
    ensures var q, urls := NonEmpty(paths), Urls(paths);
            && |urls| == |q| == |UrlLines(q)|
            && (forall u | u in urls :: |u| <= MAX_URL)
            && (forall p | p in q :: p != [] && ShortPath(p))
            && forall i | 0 <= i < |urls| ::
                 var l := UrlLines(q)[i];
                 l == SCHEME + urls[i] && LF !in l && NulFree(l) && |l| <= MAX_LINE && l != SCHEME
  {
    hide Encode, Decode, Urls, NonEmpty, NulFree;
    var q, urls := NonEmpty(paths), Urls(paths);
    UrlsOfNonEmpty(paths);
    forall i | 0 <= i < |urls|
      ensures UrlLines(q)[i] == SCHEME + urls[i] && LF !in UrlLines(q)[i] && NulFree(UrlLines(q)[i])
      ensures |UrlLines(q)[i]| <= MAX_LINE && UrlLines(q)[i] != SCHEME && |urls[i]| <= MAX_URL
    {
      assert q[i] in q;
      UrlRoundTrip(q[i]);
      UnescapeEncode(q[i]);
    }
  }

  lemma {:induction false} PrintedClean(head: bytes, urls: seq<bytes>, lines: seq<bytes>)
    requires NulFree(head) && |urls| == |lines|
    requires forall i | 0 <= i < |urls| :: |urls[i]| <= MAX_URL && lines[i] == SCHEME + urls[i] && NulFree(lines[i])
    ensures NulFree(head + EntriesOf(urls))
  {
    hide NulFree, Entry, Clipped, EntriesOf;
    OneEntryMore(head, urls);
    if urls != [] {
      var n := |urls| - 1;
      assert forall i | 0 <= i < n :: urls[..n][i] == urls[i] && lines[..n][i] == lines[i];
      PrintedClean(head, urls[..n], lines[..n]);
      EntryClean(urls[n], lines[n]);
      CleanTogether(head + EntriesOf(urls[..n]), Entry(urls[n]));
    }
  }

  lemma OneEntryMore(head: bytes, urls: seq<bytes>)
    ensures urls == [] ==> head + EntriesOf(urls) == head
    ensures urls != [] ==>
      head + EntriesOf(urls) == (head + EntriesOf(urls[..|urls| - 1])) + Entry(urls[|urls| - 1])
  {
    hide Entry;
  }

  lemma EntryClean(url: bytes, line: bytes)
    requires |url| <= MAX_URL && line == SCHEME + url && NulFree(line)
    ensures NulFree(Entry(url))
  {
    assert Entry(url) == [LF] + line;
  }

  lemma CleanTogether(a: bytes, b: bytes)
    requires NulFree(a) && NulFree(b)
    ensures NulFree(a + b)
  {
  }
}
