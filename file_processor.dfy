/**
 * The text logic of `file_processor.py`: the classification of a file extension
 * done by `extract_text`, the overlapping chunker `chunk_text`, and
 * `format_records_for_pinecone`.
 */
module FileProcessor {
  import opened Wrappers
  import opened Text
  import opened Records

  // ===========================================================================
  // extract_text: which extractor an extension selects
  // ===========================================================================

  datatype FileKind = Pdf | Txt | Docx | Ppt

  datatype ExtractError = UnsupportedExtension(extension: string)

  /** `s.lstrip('.')`: the suffix of `s` left after all leading dots. */
  function LStripDots(s: string): (r: string)
    ensures |r| <= |s| && r == s[|s| - |r|..]
    ensures forall k :: 0 <= k < |s| - |r| ==> s[k] == '.'
    ensures r == [] || r[0] != '.'
  {
    if |s| > 0 && s[0] == '.' then LStripDots(s[1..]) else s
  }

  /** `file_extension.lower().lstrip('.')`. */
  function NormalisedExtension(ext: string): string {
    LStripDots(Lower(ext))
  }

  /** The extractor `extract_text` calls for `ext`, or the ValueError it raises. */
  function ExtensionKind(ext: string): Result<FileKind, ExtractError> {
    KindOf(NormalisedExtension(ext))
  }

  /** The extractor for a normalised extension. */
  function KindOf(extension: string): Result<FileKind, ExtractError> {
    if extension == "pdf" then Success(Pdf)
    else if extension == "txt" then Success(Txt)
    else if extension in ["docx", "docs"] then Success(Docx)
    else if extension in ["ppt", "pptx"] then Success(Ppt)
    else Failure(UnsupportedExtension(extension))
  }

  lemma LowerIdempotent(s: string)
    ensures Lower(Lower(s)) == Lower(s)
  {
    LowerSpec(s);
    LowerSpec(Lower(s));
  }

  /** The classification does not depend on letter case. */
  lemma ExtensionKindIgnoresCase(ext: string)
    ensures ExtensionKind(Lower(ext)) == ExtensionKind(ext)
  {
    LowerIdempotent(ext);
  }

  /** The classification does not depend on leading dots. */
  lemma ExtensionKindIgnoresLeadingDot(ext: string)
    ensures ExtensionKind("." + ext) == ExtensionKind(ext)
  {
    assert ("." + ext)[1..] == ext;
    assert ("." + Lower(ext))[1..] == Lower(ext);
  }

  /** Examples: ".PDF" selects the PDF extractor, "..pptx" the PowerPoint one, and
      ".Doc" is rejected with the normalised extension "doc". */
  lemma ExtensionKindExamples()
    ensures ExtensionKind(".PDF") == Success(Pdf)
    ensures ExtensionKind("..pptx") == Success(Ppt)
    ensures ExtensionKind(".Doc") == Failure(UnsupportedExtension("doc"))
  {
    PdfExample();
    PptxExample();
    DocExample();
  }

  lemma PdfExample()
    ensures ExtensionKind(".PDF") == Success(Pdf)
  {
    assert NormalisedExtension(".PDF") == "pdf" by {
      LowerPdf();
      StripDotPdf(".pdf");
    }
    ClassifiedAs(".PDF", "pdf");
  }

  lemma LowerPdf()
    ensures Lower(".PDF") == ".pdf"
  {
    var l := Lower(".PDF");
    LowerSpec(".PDF");
    assert l[0] == '.' && l[1] == 'p' && l[2] == 'd' && l[3] == 'f';
  }

  lemma StripDotPdf(s: string)
    requires s == ".pdf"
    ensures LStripDots(s) == "pdf"
  {
    var u := s[1..];
    assert s[0] == '.' && u[0] == 'p';
    assert u == "pdf";
    assert LStripDots(u) == u;
  }

  lemma PptxExample()
    ensures ExtensionKind("..pptx") == Success(Ppt)
  {
    LowerPptx();
    StripDotsPptx("..pptx");
    ClassifiedAs("..pptx", "pptx");
  }

  lemma LowerPptx()
    ensures Lower("..pptx") == "..pptx"
  {
    var l := Lower("..pptx");
    LowerSpec("..pptx");
    assert l[0] == '.' && l[1] == '.' && l[2] == 'p' && l[3] == 'p' && l[4] == 't' && l[5] == 'x';
  }

  lemma StripDotsPptx(s: string)
    requires s == "..pptx"
    ensures LStripDots(s) == "pptx"
  {
    var u := s[1..];
    var v := u[1..];
    assert s[0] == '.' && u[0] == '.' && v[0] == 'p';
    assert v == "pptx";
    assert LStripDots(v) == v;
    assert LStripDots(u) == LStripDots(v);
  }

  /** A normalised extension that is not one the dispatcher knows reaches the error
      branch; a known one reaches its extractor. */
  lemma ClassifiedAs(ext: string, n: string)
    requires NormalisedExtension(ext) == n
    ensures ExtensionKind(ext) ==
              if n == "pdf" then Success(Pdf)
              else if n == "txt" then Success(Txt)
              else if n in ["docx", "docs"] then Success(Docx)
              else if n in ["ppt", "pptx"] then Success(Ppt)
              else Failure(UnsupportedExtension(n))
  {
  }

  lemma DocExample()
    ensures ExtensionKind(".Doc") == Failure(UnsupportedExtension("doc"))
  {
    var n := "doc";
    assert NormalisedExtension(".Doc") == n by {
      LowerDoc();
      StripDotDoc(".doc");
    }
    assert |n| == 3 && n[0] == 'd' && n != "pdf" && n != "txt" && n != "ppt";
    assert n !in ["docx", "docs"] && n !in ["ppt", "pptx"];
    ClassifiedAs(".Doc", n);
  }

  lemma LowerDoc()
    ensures Lower(".Doc") == ".doc"
  {
    var l := Lower(".Doc");
    LowerSpec(".Doc");
    assert l[0] == '.' && l[1] == 'd' && l[2] == 'o' && l[3] == 'c';
  }

  lemma StripDotDoc(s: string)
    requires s == ".doc"
    ensures LStripDots(s) == "doc"
  {
    var u := s[1..];
    assert s[0] == '.' && u[0] == 'd';
    assert u == "doc";
    assert LStripDots(u) == u;
  }

  // ===========================================================================
  // chunk_text
  // ===========================================================================

  /** The break characters, in the order `chunk_text` tries them. */
  const NewLine: string := "\n"
  const SentenceEnd: string := ". "
  const Space: string := " "

  /** A newline or sentence end is only used when it lies at or after index
      `chunk_size - 200` of the window. */
  const BreakSearchSpan: int := 200

  /** `i` is the last occurrence of `pat` in `s`. */
  ghost predicate IsLast(s: string, pat: string, i: int) {
    OccursAt(s, pat, i) && forall j :: OccursAt(s, pat, j) ==> j <= i
  }

  /** `pat` occurs in `s` at an index the first two tiers accept. */
  ghost predicate OccursLate(s: string, pat: string, chunkSize: int) {
    exists i :: OccursAt(s, pat, i) && i >= chunkSize - BreakSearchSpan
  }

  /** A newline, a sentence end or a space starts at index `i` of `s`. */
  ghost predicate BreakAt(s: string, i: int) {
    OccursAt(s, NewLine, i) || OccursAt(s, SentenceEnd, i) || OccursAt(s, Space, i)
  }

  /** The break point `chunk_text` looks for in a full window, -1 when there is none. */
  function BreakPoint(chunk: string, chunkSize: int): (bp: int)
    ensures -1 <= bp < |chunk|
  {
    var newline := RFind(chunk, NewLine);
    var bp := if newline == -1 || newline < chunkSize - BreakSearchSpan then RFind(chunk, SentenceEnd) else newline;
    if bp == -1 || bp < chunkSize - BreakSearchSpan then RFind(chunk, Space) else bp
  }

  /** The tiers of the break-point search: the last newline if one lies in the last 200
      characters of the window; otherwise the last sentence end under the same
      condition; otherwise the last space wherever it is, or -1 when there is no space.
      Whatever is found is the index of a break character. */
  lemma BreakPointPriority(chunk: string, chunkSize: int)
    ensures var bp := BreakPoint(chunk, chunkSize);
            (bp == -1 || BreakAt(chunk, bp)) &&
            (OccursLate(chunk, NewLine, chunkSize) ==> IsLast(chunk, NewLine, bp)) &&
            (!OccursLate(chunk, NewLine, chunkSize) && OccursLate(chunk, SentenceEnd, chunkSize) ==>
               IsLast(chunk, SentenceEnd, bp)) &&
            (!OccursLate(chunk, NewLine, chunkSize) && !OccursLate(chunk, SentenceEnd, chunkSize) ==>
               IsLast(chunk, Space, bp) || (bp == -1 && forall j :: !OccursAt(chunk, Space, j)))
  {
    RFindSpec(chunk, NewLine);
    RFindSpec(chunk, SentenceEnd);
    RFindSpec(chunk, Space);
  }

  lemma BreakInSlice(t: string, lo: int, hi: int, i: int)
    requires 0 <= lo <= hi <= |t|
    requires BreakAt(t[lo..hi], i)
    ensures BreakAt(t, lo + i)
  {
    if OccursAt(t[lo..hi], NewLine, i) {
      OccursInSlice(t, lo, hi, NewLine, i);
    } else if OccursAt(t[lo..hi], SentenceEnd, i) {
      OccursInSlice(t, lo, hi, SentenceEnd, i);
    } else {
      OccursInSlice(t, lo, hi, Space, i);
    }
  }

  /** The end of the window that starts at `start` in the stripped text `t`, after the
      cut to a break point; a cut window keeps more than half of `chunkSize`. */
  function CutEnd(t: string, start: int, chunkSize: int, overlap: int): (end: int)
    requires 0 <= start < |t| && 0 < chunkSize
    ensures start < end <= start + chunkSize
    ensures end < start + chunkSize ==> end - start > chunkSize / 2
  {
    var end := start + chunkSize;
    if end < |t| && overlap > 0 then
      var bp := BreakPoint(t[start..end], chunkSize);
      if bp > chunkSize / 2 then start + bp else end
    else end
  }

  /** A window is cut exactly when more text follows it, the overlap is positive and
      the break point lies beyond the middle of the window; the cut ends the chunk just
      before the break character, which is dropped. */
  lemma CutEndSpec(t: string, start: int, chunkSize: int, overlap: int)
    requires 0 <= start < |t| && 0 < chunkSize
    ensures var end := CutEnd(t, start, chunkSize, overlap);
            (end < start + chunkSize <==>
               start + chunkSize < |t| && overlap > 0 &&
               BreakPoint(t[start..start + chunkSize], chunkSize) > chunkSize / 2) &&
            (end < start + chunkSize ==>
               end == start + BreakPoint(t[start..start + chunkSize], chunkSize) && BreakAt(t, end))
  {
    var end := CutEnd(t, start, chunkSize, overlap);
    if end < start + chunkSize {
      var bp := BreakPoint(t[start..start + chunkSize], chunkSize);
      BreakPointPriority(t[start..start + chunkSize], chunkSize);
      BreakInSlice(t, start, start + chunkSize, bp);
    }
  }

  /** The slice `text[lo:hi]` behind one emitted chunk. */
  datatype Window = Window(lo: int, hi: int)

  /** Every window of a cut function is non-empty and the next one, which starts at its
      end minus the overlap, starts further on. */
  ghost predicate Advancing(n: int, overlap: int, cut: int -> int) {
    forall s :: 0 <= s < n ==> s < cut(s) && s < cut(s) - overlap
  }

  /** The loop of `chunk_text` from `start` on, over text of length `n`, for the window
      ends that `cut` gives for each window start: the window `[start, cut(start))`,
      then the windows from its end minus the overlap, until that reaches `n`. */
  function Walk(n: int, start: int, overlap: int, cut: int -> int): (ws: seq<Window>)
    requires 0 <= start < n && Advancing(n, overlap, cut)
    ensures |ws| > 0
    decreases n - start
  {
    var end := cut(start);
    if end - overlap >= n then [Window(start, end)]
    else [Window(start, end)] + Walk(n, end - overlap, overlap, cut)
  }

  /** The window ends of `chunk_text` on the stripped text `t`, as a function of the
      window start; the cut is only asked for starts inside the text. */
  function Cut(t: string, chunkSize: int, overlap: int): int -> int
    requires 0 < chunkSize
  {
    (s: int) => if 0 <= s < |t| then CutEnd(t, s, chunkSize, overlap) else 0
  }

  /** The windows of the chunking loop once `start` has been reached. */
  function WindowsFrom(t: string, start: int, chunkSize: int, overlap: int): (ws: seq<Window>)
    requires 0 <= start < |t| && 0 < chunkSize && overlap <= chunkSize / 2
    ensures |ws| > 0 && WindowsIn(t, ws)
  {
    CutIsAdvancing(t, chunkSize, overlap);
    WalkInside(|t|, start, overlap, Cut(t, chunkSize, overlap));
    Walk(|t|, start, overlap, Cut(t, chunkSize, overlap))
  }

  /** The offsets of the loop for windows `ws` from `start` on: the windows start at
      `start`, each later one at the end of the previous one minus the overlap; the
      starts strictly increase and stay inside the text; every window is at most
      `chunkSize` long and ends where the cut puts it; and the loop stops at the first
      window whose end minus the overlap reaches the end of the text. */
  ghost predicate Chained(t: string, ws: seq<Window>, start: int, chunkSize: int, overlap: int)
    requires 0 <= start && 0 < chunkSize
  {
    |ws| > 0 && ws[0].lo == start &&
    (forall k :: 0 <= k < |ws| ==>
       start <= ws[k].lo < |t| && ws[k].hi == CutEnd(t, ws[k].lo, chunkSize, overlap) &&
       ws[k].lo < ws[k].hi <= ws[k].lo + chunkSize) &&
    (forall k :: 0 <= k < |ws| - 1 ==>
       ws[k + 1].lo == ws[k].hi - overlap && ws[k].lo < ws[k + 1].lo) &&
    ws[|ws| - 1].hi - overlap >= |t|
  }

  lemma WindowsChain(t: string, start: int, chunkSize: int, overlap: int)
    requires 0 <= start < |t| && 0 < chunkSize && overlap <= chunkSize / 2
    ensures Chained(t, WindowsFrom(t, start, chunkSize, overlap), start, chunkSize, overlap)
  {
    var ws := WindowsFrom(t, start, chunkSize, overlap);
    forall k | 0 <= k < |ws|
      ensures start <= ws[k].lo < |t| && ws[k].hi == CutEnd(t, ws[k].lo, chunkSize, overlap)
      ensures k + 1 < |ws| ==> ws[k + 1].lo == ws[k].hi - overlap && ws[k].lo < ws[k + 1].lo
    {
      WindowAt(t, start, chunkSize, overlap, k);
    }
    WindowAt(t, start, chunkSize, overlap, 0);
    WindowAt(t, start, chunkSize, overlap, |ws| - 1);
  }

  /** The `k`-th window of the loop from `start`: it starts inside the text at or after
      `start` (at `start` itself for the first), it ends where the cut puts it, the
      next window starts at its end minus the overlap, further on, and the loop stops
      after it exactly when its end minus the overlap reaches the end of the text. */
  lemma {:induction false} WalkAt(n: int, start: int, overlap: int, cut: int -> int, k: int)
    requires 0 <= start < n && Advancing(n, overlap, cut)
    requires 0 <= k < |Walk(n, start, overlap, cut)|
    ensures var ws := Walk(n, start, overlap, cut);
            start <= ws[k].lo < n && ws[k].hi == cut(ws[k].lo) &&
            (k == 0 ==> ws[k].lo == start) &&
            (k + 1 < |ws| ==> ws[k + 1].lo == ws[k].hi - overlap < n && ws[k].lo < ws[k + 1].lo) &&
            (k + 1 == |ws| ==> ws[k].hi - overlap >= n)
    decreases n - start
  {
    var ws := Walk(n, start, overlap, cut);
    var end := cut(start);
    if end - overlap < n {
      var rest := Walk(n, end - overlap, overlap, cut);
      assert ws == [Window(start, end)] + rest;
      if k == 0 {
        assert ws[1] == rest[0];
      } else {
        WalkAt(n, end - overlap, overlap, cut, k - 1);
        assert ws[k] == rest[k - 1];
        if k + 1 < |ws| {
          assert ws[k + 1] == rest[k];
        }
      }
    }
  }

  /** Every window of the loop lies inside the text, start first. */
  lemma WalkInside(n: int, start: int, overlap: int, cut: int -> int)
    requires 0 <= start < n && Advancing(n, overlap, cut)
    ensures forall k :: 0 <= k < |Walk(n, start, overlap, cut)| ==>
              0 <= Walk(n, start, overlap, cut)[k].lo <= Walk(n, start, overlap, cut)[k].hi &&
              Walk(n, start, overlap, cut)[k].lo <= n
  {
    var ws := Walk(n, start, overlap, cut);
    forall k | 0 <= k < |ws| ensures 0 <= ws[k].lo <= ws[k].hi && ws[k].lo <= n {
      WalkAt(n, start, overlap, cut, k);
    }
  }

  /** The cut of `chunk_text` makes the loop advance. */
  lemma CutIsAdvancing(t: string, chunkSize: int, overlap: int)
    requires 0 < chunkSize && overlap <= chunkSize / 2
    ensures Advancing(|t|, overlap, Cut(t, chunkSize, overlap))
  {
    forall s | 0 <= s < |t|
      ensures s < Cut(t, chunkSize, overlap)(s) && s < Cut(t, chunkSize, overlap)(s) - overlap
    {
      CutAdvances(t, s, chunkSize, overlap);
    }
  }

  /** The `k`-th window of `chunk_text` from `start`, as `WalkAt` states it for the cut
      `CutEnd`. */
  lemma WindowAt(t: string, start: int, chunkSize: int, overlap: int, k: int)
    requires 0 <= start < |t| && 0 < chunkSize && overlap <= chunkSize / 2
    requires 0 <= k < |WindowsFrom(t, start, chunkSize, overlap)|
    ensures var ws := WindowsFrom(t, start, chunkSize, overlap);
            start <= ws[k].lo < |t| && ws[k].hi == CutEnd(t, ws[k].lo, chunkSize, overlap) &&
            (k == 0 ==> ws[k].lo == start) &&
            (k + 1 < |ws| ==> ws[k + 1].lo == ws[k].hi - overlap < |t| && ws[k].lo < ws[k + 1].lo) &&
            (k + 1 == |ws| ==> ws[k].hi - overlap >= |t|)
  {
    CutIsAdvancing(t, chunkSize, overlap);
    WalkAt(|t|, start, overlap, Cut(t, chunkSize, overlap), k);
  }

  /** The next window starts after the current one: a cut keeps more than half of
      `chunkSize`, and the overlap is at most half of it. */
  lemma CutAdvances(t: string, start: int, chunkSize: int, overlap: int)
    requires 0 <= start < |t| && 0 < chunkSize && overlap <= chunkSize / 2
    ensures start < CutEnd(t, start, chunkSize, overlap) - overlap
  {
    assert chunkSize / 2 < chunkSize;
  }

  ghost predicate WindowsIn(t: string, ws: seq<Window>) {
    forall k :: 0 <= k < |ws| ==> 0 <= ws[k].lo <= ws[k].hi && ws[k].lo <= |t|
  }

  /** The chunk a window gives: `text[lo:hi].strip()`, the slice clamped at the end. */
  function ChunkOf(t: string, w: Window): string
    requires 0 <= w.lo <= w.hi && w.lo <= |t|
  {
    Strip(t[w.lo..Min(w.hi, |t|)])
  }

  function ChunksOf(t: string, ws: seq<Window>): (r: seq<string>)
    requires WindowsIn(t, ws)
    ensures |r| == |ws| && forall k :: 0 <= k < |ws| ==> r[k] == ChunkOf(t, ws[k])
  {
    if ws == [] then [] else [ChunkOf(t, ws[0])] + ChunksOf(t, ws[1..])
  }

  /** What `chunk_text(text, chunkSize, overlap)` returns. */
  function Chunks(text: string, chunkSize: int := 2000, overlap: int := 100): seq<string>
    requires 0 < chunkSize && overlap <= chunkSize / 2
  {
    var t := Strip(text);
    if |t| == 0 then []
    else if |t| <= chunkSize then [t]
    else ChunksOf(t, WindowsFrom(t, 0, chunkSize, overlap))
  }

  /** The break-point search inside the loop of `chunk_text`, run on a full window. */
  method FindBreakPoint(chunk: string, chunkSize: int) returns (breakPoint: int)
    ensures breakPoint == BreakPoint(chunk, chunkSize)
  {
    breakPoint := RFind(chunk, "\n");
    if breakPoint == -1 || breakPoint < chunkSize - 200 {
      breakPoint := RFind(chunk, ". ");
    }
    if breakPoint == -1 || breakPoint < chunkSize - 200 {
      breakPoint := RFind(chunk, " ");
    }
  }

  /** The body of the loop of `chunk_text` up to the append: the window `text[start:end]`
      and, when more text follows and the overlap is positive, its cut at a break point
      beyond the middle. */
  method CutWindow(t: string, start: int, chunkSize: int, overlap: int) returns (chunk: string, end: int)
    requires 0 <= start < |t| && 0 < chunkSize
    ensures end == CutEnd(t, start, chunkSize, overlap) && chunk == t[start..Min(end, |t|)]
  {
    end := start + chunkSize;
    chunk := t[start..Min(end, |t|)];
    if end < |t| && overlap > 0 {
      var breakPoint := FindBreakPoint(chunk, chunkSize);
      if breakPoint > chunkSize / 2 {
        chunk := chunk[..breakPoint];
        end := start + breakPoint;
      }
    }
  }

  /** `chunk_text`. The loop terminates because every step advances `start`:
      by `chunkSize - overlap` without a cut and by `breakPoint - overlap` with one,
      and `breakPoint > chunkSize / 2 >= overlap`. */
  method ChunkText(text: string, chunkSize: int := 2000, overlap: int := 100) returns (chunks: seq<string>)
    requires 0 < chunkSize && overlap <= chunkSize / 2
    ensures chunks == Chunks(text, chunkSize, overlap)
  {
    if |text| == 0 || |Strip(text)| == 0 {
      return [];
    }
    var t := Strip(text);
    if |t| <= chunkSize {
      return [t];
    }
    chunks := ChunkLoop(t, chunkSize, overlap);
  }

  /** The `while` loop of `chunk_text` over the stripped text `t`. */
  method ChunkLoop(t: string, chunkSize: int, overlap: int) returns (chunks: seq<string>)
    requires 0 < chunkSize && overlap <= chunkSize / 2 && |t| > 0
    ensures chunks == ChunksOf(t, WindowsFrom(t, 0, chunkSize, overlap))
  {
    chunks := [];
    var start := 0;
    ghost var all := WindowsFrom(t, 0, chunkSize, overlap);
    while start < |t|
      invariant 0 <= start && |chunks| <= |all|
      invariant chunks == ChunksOf(t, all[..|chunks|])
      invariant start < |t| ==> |chunks| < |all| && all[|chunks|].lo == start
      invariant start >= |t| ==> |chunks| == |all|
      decreases |t| - start
    {
      ghost var k := |chunks|;
      var chunk, end := CutWindow(t, start, chunkSize, overlap);
      WindowStep(t, chunkSize, overlap, k, start, end, chunk);
      ChunksOfSnoc(t, all, k);
      chunks := chunks + [Strip(chunk)];
      start := end - overlap;
      if start >= |t| {
        break;
      }
    }
    assert all[..|all|] == all;
  }

  /** The chunks of the first `k + 1` windows extend those of the first `k`. */
  lemma ChunksOfSnoc(t: string, ws: seq<Window>, k: int)
    requires WindowsIn(t, ws) && 0 <= k < |ws|
    ensures ChunksOf(t, ws[..k + 1]) == ChunksOf(t, ws[..k]) + [ChunkOf(t, ws[k])]
  {
    var a, b := ChunksOf(t, ws[..k + 1]), ChunksOf(t, ws[..k]) + [ChunkOf(t, ws[k])];
    forall j | 0 <= j < |a| ensures a[j] == b[j] {
      if j < k {
        assert ws[..k + 1][j] == ws[..k][j];
      }
    }
  }

  /** What one turn of the loop needs of its window `k`: the chunk it appends, and
      whether a window follows and where it starts. */
  lemma WindowStep(t: string, chunkSize: int, overlap: int, k: int, start: int, end: int, chunk: string)
    requires 0 < chunkSize && overlap <= chunkSize / 2 && 0 <= start < |t|
    requires 0 <= k < |WindowsFrom(t, 0, chunkSize, overlap)| && WindowsFrom(t, 0, chunkSize, overlap)[k].lo == start
    requires end == CutEnd(t, start, chunkSize, overlap) && chunk == t[start..Min(end, |t|)]
    ensures ChunkOf(t, WindowsFrom(t, 0, chunkSize, overlap)[k]) == Strip(chunk)
    ensures end - overlap < |t| ==>
              k + 1 < |WindowsFrom(t, 0, chunkSize, overlap)| &&
              WindowsFrom(t, 0, chunkSize, overlap)[k + 1].lo == end - overlap
    ensures end - overlap >= |t| ==> k + 1 == |WindowsFrom(t, 0, chunkSize, overlap)|
  {
    WindowAt(t, 0, chunkSize, overlap, k);
  }

  // ---------------------------------------------------------------------------
  // Properties of the chunker
  // ---------------------------------------------------------------------------

  /** Blank text gives no chunk, and only blank text does; text whose stripped form
      fits in one window gives exactly that stripped form. */
  lemma ChunksOfShortText(text: string, chunkSize: int, overlap: int)
    requires 0 < chunkSize && overlap <= chunkSize / 2
    ensures Chunks(text, chunkSize, overlap) == [] <==> AllSpace(text)
    ensures 0 < |Strip(text)| <= chunkSize ==> Chunks(text, chunkSize, overlap) == [Strip(text)]
  {
    StripEmptyIff(text);
  }

  /** `c` is the stripped form of a slice of `t` at most `chunkSize` long. */
  ghost predicate IsStrippedSlice(t: string, c: string, chunkSize: int) {
    exists lo, hi :: 0 <= lo <= hi <= |t| && hi - lo <= chunkSize && c == Strip(t[lo..hi])
  }

  /** Every chunk is the stripped form of a contiguous slice of the stripped text, at most
      `chunkSize` characters long, so no chunk is longer than `chunkSize`. */
  lemma ChunksAreStrippedSlices(text: string, chunkSize: int, overlap: int)
    requires 0 < chunkSize && overlap <= chunkSize / 2
    ensures forall c :: c in Chunks(text, chunkSize, overlap) ==>
              |c| <= chunkSize && IsStrippedSlice(Strip(text), c, chunkSize)
  {
    var t := Strip(text);
    var r := Chunks(text, chunkSize, overlap);
    if 0 < |t| <= chunkSize {
      StripIdempotent(text);
      assert t[0..|t|] == t;
      assert IsStrippedSlice(t, t, chunkSize);
    } else if |t| > chunkSize {
      var ws := WindowsFrom(t, 0, chunkSize, overlap);
      WindowsChain(t, 0, chunkSize, overlap);
      WindowChunksAreStrippedSlices(t, ws, chunkSize);
    }
  }

  lemma WindowChunksAreStrippedSlices(t: string, ws: seq<Window>, chunkSize: int)
    requires WindowsIn(t, ws)
    requires forall k :: 0 <= k < |ws| ==> ws[k].hi - ws[k].lo <= chunkSize
    ensures forall c :: c in ChunksOf(t, ws) ==> |c| <= chunkSize && IsStrippedSlice(t, c, chunkSize)
  {
    var r := ChunksOf(t, ws);
    forall k | 0 <= k < |r| ensures |r[k]| <= chunkSize && IsStrippedSlice(t, r[k], chunkSize) {
      var lo, hi := ws[k].lo, Min(ws[k].hi, |t|);
      assert r[k] == Strip(t[lo..hi]);
    }
  }

  lemma NoBreakWithoutSpaceOrNewline(t: string)
    requires forall i :: 0 <= i < |t| ==> t[i] != ' ' && t[i] != '\n'
    ensures forall e :: !BreakAt(t, e)
  {
    forall e ensures !BreakAt(t, e) {
      if 0 <= e && e + 1 <= |t| {
        assert t[e..e + 1][0] == t[e];
      }
      if 0 <= e && e + 2 <= |t| {
        assert t[e..e + 2][1] == t[e + 1];
      }
    }
  }

  /** The k-th window starts at `start + k * (chunkSize - overlap)` and spans `chunkSize`
      characters. */
  ghost predicate EvenlySpaced(ws: seq<Window>, start: int, chunkSize: int, overlap: int) {
    forall k :: 0 <= k < |ws| ==>
      ws[k].lo == start + k * (chunkSize - overlap) && ws[k].hi == ws[k].lo + chunkSize
  }

  /** In text without spaces and newlines no window is cut: the k-th window starts at
      `start + k * (chunkSize - overlap)` and spans `chunkSize` characters. */
  lemma WindowsWithoutBreaks(t: string, start: int, chunkSize: int, overlap: int)
    requires 0 <= start < |t| && 0 < chunkSize && overlap <= chunkSize / 2
    requires forall i :: 0 <= i < |t| ==> t[i] != ' ' && t[i] != '\n'
    ensures EvenlySpaced(WindowsFrom(t, start, chunkSize, overlap), start, chunkSize, overlap)
  {
    var cut := Cut(t, chunkSize, overlap);
    CutIsAdvancing(t, chunkSize, overlap);
    forall s | 0 <= s < |t| ensures cut(s) == s + chunkSize {
      NoCutWithoutBreaks(t, s, chunkSize, overlap);
    }
    WalkEvenly(|t|, start, chunkSize, overlap, cut);
  }

  /** A loop whose cut never shortens a window. */
  lemma {:induction false} WalkEvenly(n: int, start: int, chunkSize: int, overlap: int, cut: int -> int)
    requires 0 <= start < n && Advancing(n, overlap, cut)
    requires forall s :: 0 <= s < n ==> cut(s) == s + chunkSize
    ensures EvenlySpaced(Walk(n, start, overlap, cut), start, chunkSize, overlap)
    decreases n - start
  {
    var ws := Walk(n, start, overlap, cut);
    var next := start + chunkSize - overlap;
    assert cut(start) == start + chunkSize;
    if next < n {
      WalkEvenly(n, next, chunkSize, overlap, cut);
      EvenlySpacedCons(ws, Walk(n, next, overlap, cut), start, chunkSize, overlap);
    } else {
      assert ws == [Window(start, start + chunkSize)];
    }
  }

  /** One full window in front of evenly spaced windows that start one step later. */
  lemma EvenlySpacedCons(ws: seq<Window>, rest: seq<Window>, start: int, chunkSize: int, overlap: int)
    requires EvenlySpaced(rest, start + chunkSize - overlap, chunkSize, overlap)
    requires ws == [Window(start, start + chunkSize)] + rest
    ensures EvenlySpaced(ws, start, chunkSize, overlap)
  {
    forall k | 0 < k < |ws|
      ensures ws[k].lo == start + k * (chunkSize - overlap) && ws[k].hi == ws[k].lo + chunkSize
    {
      var j := k - 1;
      assert ws[k] == rest[j];
      assert start + k * (chunkSize - overlap) == (start + chunkSize - overlap) + j * (chunkSize - overlap);
    }
  }

  /** A window of text without spaces and newlines is never cut. */
  lemma NoCutWithoutBreaks(t: string, start: int, chunkSize: int, overlap: int)
    requires 0 <= start < |t| && 0 < chunkSize
    requires forall i :: 0 <= i < |t| ==> t[i] != ' ' && t[i] != '\n'
    ensures CutEnd(t, start, chunkSize, overlap) == start + chunkSize
  {
    NoBreakWithoutSpaceOrNewline(t);
    CutEndSpec(t, start, chunkSize, overlap);
  }

  /** 4500 characters without break characters, windows of 2000, overlap 100: three
      windows, starting at 0, 1900 and 3800. */
  lemma Example4500Windows(t: string)
    requires |t| == 4500 && forall i :: 0 <= i < |t| ==> t[i] == 'A'
    ensures WindowsFrom(t, 0, 2000, 100) == [Window(0, 2000), Window(1900, 3900), Window(3800, 5800)]
  {
    WindowsWithoutBreaks(t, 0, 2000, 100);
    WindowsChain(t, 0, 2000, 100);
    var ws := WindowsFrom(t, 0, 2000, 100);
    assert ws[0].hi == 2000;
    assert |ws| > 1 && ws[1].lo == 1900 && ws[1].hi == 3900;
    assert |ws| > 2 && ws[2].lo == 3800 && ws[2].hi == 5800;
  }

  /** ... which give chunks of 2000, 2000 and 700 characters. */
  lemma Example4500(t: string)
    requires |t| == 4500 && forall i :: 0 <= i < |t| ==> t[i] == 'A'
    ensures Chunks(t, 2000, 100) == [t[0..2000], t[1900..3900], t[3800..4500]]
  {
    StripNoSpace(t);
    Example4500Windows(t);
    StripSliceWithoutSpace(t, 0, 2000);
    StripSliceWithoutSpace(t, 1900, 3900);
    StripSliceWithoutSpace(t, 3800, 4500);
    ChunksOfThree(t, WindowsFrom(t, 0, 2000, 100));
  }

  lemma StripSliceWithoutSpace(t: string, lo: int, hi: int)
    requires 0 <= lo <= hi <= |t| && forall i :: 0 <= i < |t| ==> !IsSpace(t[i])
    ensures Strip(t[lo..hi]) == t[lo..hi]
  {
    var a := t[lo..hi];
    assert forall i :: 0 <= i < |a| ==> a[i] == t[lo + i];
    StripNoSpace(a);
  }

  lemma ChunksOfThree(t: string, ws: seq<Window>)
    requires WindowsIn(t, ws) && |ws| == 3
    ensures ChunksOf(t, ws) == [ChunkOf(t, ws[0]), ChunkOf(t, ws[1]), ChunkOf(t, ws[2])]
  {
  }

  /** The last occurrence of a one-character pattern. */
  lemma RFindLastChar(s: string, c: char, i: int)
    requires 0 <= i < |s| && s[i] == c
    requires forall j :: i < j < |s| ==> s[j] != c
    ensures RFind(s, [c]) == i
  {
    forall j | i < j && j + 1 <= |s| ensures !OccursAt(s, [c], j) {
      assert s[j..j + 1][0] == s[j];
    }
    assert s[i..i + 1] == [c];
    RFindLast(s, [c], i);
  }

  /** Nothing drops an empty chunk: in "ab      cd" with windows of 4 and overlap 1 the
      second window is cut to three spaces, which strip to the empty string. */
  lemma EmptyChunkCanBeEmitted(t: string)
    requires t == "ab      cd"
    ensures var r := Chunks(t, 4, 1); |r| > 1 && r[1] == ""
  {
    EmptyChunkWindows(t);
    StripTrimmed(t);
    SecondChunk(t, 4, 1);
    BlankChunk(t, 2, 5);
  }

  /** The second chunk of text that `strip` leaves alone is the chunk of its second
      window. */
  lemma SecondChunk(t: string, chunkSize: int, overlap: int)
    requires 0 < chunkSize && overlap <= chunkSize / 2 && Strip(t) == t && |t| > chunkSize
    requires |WindowsFrom(t, 0, chunkSize, overlap)| > 1
    ensures |Chunks(t, chunkSize, overlap)| > 1
    ensures Chunks(t, chunkSize, overlap)[1] == ChunkOf(t, WindowsFrom(t, 0, chunkSize, overlap)[1])
  {
  }

  /** A window over whitespace only gives the empty chunk. */
  lemma BlankChunk(t: string, lo: int, hi: int)
    requires 0 <= lo <= hi <= |t| && SpaceBetween(t, lo, hi)
    ensures ChunkOf(t, Window(lo, hi)) == ""
  {
    var a := t[lo..hi];
    assert forall k :: 0 <= k < |a| ==> a[k] == t[lo + k];
    StripEmptyIff(a);
  }

  /** The first two windows of that example: the first is cut at index 3, the second,
      starting at 3 - 1 = 2, is cut at index 2 + 3. */
  lemma EmptyChunkWindows(t: string)
    requires t == "ab      cd"
    ensures var ws := WindowsFrom(t, 0, 4, 1); |ws| > 1 && ws[1] == Window(2, 5)
  {
    EmptyChunkCuts(t);
    var cut := Cut(t, 4, 1);
    CutIsAdvancing(t, 4, 1);
    assert cut(0) == 3 && cut(2) == 5;
    assert Walk(|t|, 0, 1, cut) == [Window(0, 3)] + Walk(|t|, 2, 1, cut);
    assert Walk(|t|, 2, 1, cut)[0] == Window(2, 5);
  }

  lemma EmptyChunkCuts(t: string)
    requires t == "ab      cd"
    ensures CutEnd(t, 0, 4, 1) == 3 && CutEnd(t, 2, 4, 1) == 5
  {
    var c0 := t[0..4];
    assert c0 == "ab  ";
    RFindAbsent(c0, NewLine);
    RFindAbsent(c0, SentenceEnd);
    RFindLastChar(c0, ' ', 3);
    assert BreakPoint(c0, 4) == 3;
    var c1 := t[2..6];
    assert c1 == "    ";
    RFindAbsent(c1, NewLine);
    RFindAbsent(c1, SentenceEnd);
    RFindLastChar(c1, ' ', 3);
    assert BreakPoint(c1, 4) == 3;
  }

  /** With an overlap above half the window the loop can stand still: in
      "aaaaaa aaaaaaaaaaa" with windows of 10 and overlap 6 the first window is cut at
      the space, index 6, and the next start is 6 - 6 = 0 again. */
  lemma LargeOverlapStalls()
    ensures CutEnd("aaaaaa aaaaaaaaaaa", 0, 10, 6) - 6 == 0
  {
    var t := "aaaaaa aaaaaaaaaaa";
    var c0 := t[0..10];
    assert c0 == "aaaaaa aaa";
    RFindAbsent(c0, NewLine);
    RFindAbsent(c0, SentenceEnd);
    RFindLastChar(c0, ' ', 6);
    assert BreakPoint(c0, 10) == 6;
  }

  // ===========================================================================
  // format_records_for_pinecone
  // ===========================================================================

  /** `f"{base_id}_{i}"`. */
  function RecordId(baseId: string, i: nat): string {
    baseId + "_" + Decimal(i)
  }

  lemma RecordIdsDiffer(baseId: string, i: nat, j: nat)
    requires i != j
    ensures RecordId(baseId, i) != RecordId(baseId, j)
  {
    var n := |baseId| + 1;
    assert RecordId(baseId, i)[n..] == Decimal(i);
    assert RecordId(baseId, j)[n..] == Decimal(j);
    if Decimal(i) == Decimal(j) {
      DecimalInjective(i, j);
    }
  }

  /** The base of the ids: `base_id`, or the assistant when it is None. */
  function BaseId(assistant: string, baseId: Option<string>): string {
    if baseId.Some? then baseId.value else assistant
  }

  /** The records `format_records_for_pinecone` returns: one per chunk, in order, the
      i-th (counting from 1) with id `base_i`, the chunk as text and the assistant. */
  function Formatted(chunks: seq<string>, assistant: string, baseId: Option<string>): seq<Record> {
    seq(|chunks|, i requires 0 <= i < |chunks| =>
      Record(Str(RecordId(BaseId(assistant, baseId), i + 1)), Str(chunks[i]), Str(assistant)))
  }

  /** No two formatted records share an id. */
  lemma FormattedIdsDistinct(chunks: seq<string>, assistant: string, baseId: Option<string>)
    ensures var r := Formatted(chunks, assistant, baseId);
            forall i, j :: 0 <= i < j < |r| ==> r[i].id != r[j].id
  {
    var r := Formatted(chunks, assistant, baseId);
    forall i, j | 0 <= i < j < |r| ensures r[i].id != r[j].id {
      RecordIdsDiffer(BaseId(assistant, baseId), i + 1, j + 1);
    }
  }

  /** `format_records_for_pinecone`. */
  method FormatRecords(chunks: seq<string>, assistant: string, baseId: Option<string>)
    returns (records: seq<Record>)
    ensures records == Formatted(chunks, assistant, baseId)
    ensures forall i, j :: 0 <= i < j < |records| ==> records[i].id != records[j].id
  {
    var base := if baseId.None? then assistant else baseId.value;
    records := [];
    for i := 1 to |chunks| + 1
      invariant records == Formatted(chunks, assistant, baseId)[..i - 1]
    {
      var chunk := chunks[i - 1];
      var record := Record(Str(RecordId(base, i)), Str(chunk), Str(assistant));
      records := records + [record];
      assert base == BaseId(assistant, baseId);
      assert Formatted(chunks, assistant, baseId)[i - 1] == record;
      assert Formatted(chunks, assistant, baseId)[..i] ==
             Formatted(chunks, assistant, baseId)[..i - 1] + [record];
    }
    assert Formatted(chunks, assistant, baseId)[..|chunks|] == Formatted(chunks, assistant, baseId);
    FormattedIdsDistinct(chunks, assistant, baseId);
  }
}
