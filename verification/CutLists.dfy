/** Printing a list of files for the clipboard: set_clipboard_cut_files (src/utils/utils.c). */
module CutLists {
  import opened Bytes
  import opened UrlCodec

  const CUT: bytes := [99, 117, 116]  // "cut"
  const MAX_URL := 4096

  /** What is printed of a URL. */
  function Clipped(url: bytes): bytes {
    url[..Min(|url|, MAX_URL)]
  }

  function Entry(url: bytes): bytes {
    [LF] + SCHEME + Clipped(url)
  }

  function EntriesOf(urls: seq<bytes>): bytes {
    if urls == [] then [] else EntriesOf(urls[..|urls| - 1]) + Entry(urls[|urls| - 1])
  }

  function Printed(urls: seq<bytes>): bytes {
    CUT + EntriesOf(urls)
  }

  /** The size that is allocated, with the terminator. */
  function TotLen(urls: seq<bytes>): nat {
    if urls == [] then 4 else TotLen(urls[..|urls| - 1]) + |urls[|urls| - 1]| + 8
  }

  /** The non-empty paths, encoded. */
  function Urls(paths: seq<bytes>): seq<bytes> {
    if paths == [] then []
    else
      var p := paths[|paths| - 1];
      Urls(paths[..|paths| - 1]) + if Encode(p) == [] then [] else [Encode(p)]
  }

  /** The allocated buffer is filled to its end exactly when no URL is longer than 4096 bytes. */
  lemma {:induction false} FilledExactly(urls: seq<bytes>)
    ensures |Printed(urls)| + 1 <= TotLen(urls)
    ensures |Printed(urls)| + 1 == TotLen(urls) <==> forall u | u in urls :: |u| <= 4096
  {
    if urls != [] {
      var front, u := urls[..|urls| - 1], urls[|urls| - 1];
      FilledExactly(front);
      assert urls == front + [u];
    }
  }

  lemma PrintedPrefix(urls: seq<bytes>, i: nat)
    requires i < |urls|
    ensures Printed(urls[..i + 1]) == Printed(urls[..i]) + Entry(urls[i])
    ensures TotLen(urls[..i + 1]) == TotLen(urls[..i]) + |urls[i]| + 8
  {
    assert urls[..i + 1][..i] == urls[..i];
  }

  lemma {:induction false} TotLenGrows(urls: seq<bytes>, i: nat)
    requires i <= |urls|
    ensures TotLen(urls[..i]) <= TotLen(urls)
    decreases |urls| - i
  {
    if i < |urls| {
      PrintedPrefix(urls, i);
      TotLenGrows(urls, i + 1);
    } else {
      assert urls[..i] == urls;
    }
  }

  /** strncpy of a whole text into a larger buffer, with its terminator. */
  method CopyText(buf: array<byte>, p: nat, text: bytes)
    requires p + |text| < buf.Length
    modifies buf
    ensures forall j | 0 <= j < p :: buf[j] == old(buf[j])
    ensures forall j | p <= j < p + |text| :: buf[j] == text[j - p]
    ensures buf[p + |text|] == NUL
  {
    for i := 0 to |text|
      invariant forall j | 0 <= j < p :: buf[j] == old(buf[j])
      invariant forall j | p <= j < p + i :: buf[j] == text[j - p]
    {
      buf[p + i] := text[i];
    }
    buf[p + |text|] := NUL;
  }

  /** The first loop of set_clipboard_cut_files. */
  method EncodePaths(paths: seq<bytes>) returns (urls: seq<bytes>, totLen: nat)
    requires forall p | p in paths :: NulFree(p) && 3 * |p| + 1 < UINT_RANGE
    ensures urls == Urls(paths) && totLen == TotLen(urls)
  {
    hide Encode, NulFree;
    urls, totLen := [], 4;
    for i := 0 to |paths|
      invariant urls == Urls(paths[..i]) && totLen == TotLen(urls)
    {
      assert paths[i] in paths && paths[..i + 1][..i] == paths[..i];
      var len, url := UrlEncode(paths[i]);
      if len != 0 {
        totLen := totLen + len + 8;
        var text := url[..len];
        assert (urls + [text])[..|urls|] == urls;
        urls := urls + [text];
      }
    }
    assert paths[..|paths|] == paths;
  }

  /** The second loop of set_clipboard_cut_files: the buffer holds the printed list, terminated. */
  method PrintUrls(urls: seq<bytes>, buf: array<byte>) returns (end: nat)
    requires buf.Length == TotLen(urls)
    modifies buf
    ensures end == |Printed(urls)| < buf.Length && buf[..end] == Printed(urls) && buf[end] == NUL
  {
    hide TotLen, Printed;
    TotLenGrows(urls, 0);
    PrintedStart(urls);
    CopyText(buf, 0, CUT);
    var p := 3;
    for i := 0 to |urls|
      invariant p == |Printed(urls[..i])| && p + 1 <= TotLen(urls[..i]) <= buf.Length
      invariant forall j | 0 <= j < p :: buf[j] == Printed(urls[..i])[j]
    {
      PrintedPrefix(urls, i);
      TotLenGrows(urls, i + 1);
      p := PrintUrl(buf, p, urls[i]);
    }
    assert urls[..|urls|] == urls;
    buf[p] := NUL;
    return p;
  }

  method PrintUrl(buf: array<byte>, p: nat, url: bytes) returns (end: nat)
    requires p + |Entry(url)| < buf.Length
    modifies buf
    ensures end == p + |Entry(url)|
    ensures forall j | 0 <= j < p :: buf[j] == old(buf[j])
    ensures forall j | p <= j < end :: buf[j] == Entry(url)[j - p]
  {
    CopyText(buf, p, [LF] + SCHEME);
    var text := Clipped(url);
    CopyText(buf, p + 8, text);
    end := p + 8 + |text|;
  }

  lemma PrintedStart(urls: seq<bytes>)
    ensures Printed(urls[..0]) == CUT && TotLen(urls[..0]) == 4
  {
  }

  /** set_clipboard_cut_files up to the hand-over: a buffer of TotLen bytes that starts with the printed list. */
  method SetClipboardCutFiles(paths: seq<bytes>) returns (ok: bool, buf: array<byte>)
    requires forall p | p in paths :: NulFree(p) && 3 * |p| + 1 < UINT_RANGE
    ensures fresh(buf) && (ok <==> TotLen(Urls(paths)) < UINT_RANGE - 1)
    ensures ok ==>
      var text := Printed(Urls(paths));
      buf.Length == TotLen(Urls(paths)) && |text| < buf.Length && buf[..|text|] == text && buf[|text|] == NUL
  {
    hide TotLen, Printed, Urls;
    var urls, totLen := EncodePaths(paths);
    if totLen >= UINT_RANGE - 1 {
      buf := new byte[0];
      return false, buf;
    }
    buf := new byte[totLen];
    var end := PrintUrls(urls, buf);
    ok := true;
  }
}
