/**
 * Ingestion helpers: the text normalisation applied to every extracted page,
 * and the page/piece/window walk that turns a document into chunk records.
 * The PDF reader and the heading split are outside the model: the raw page
 * texts and, per page, the pieces the heading split produced are inputs.
 */
module Utils {
  import opened Common
  import opened Text
  import opened Corpus
  import opened Order

  // ---------------------------------------------------------------------------
  // clean_text

  predicate IsBlank(c: char) {
    c == ' ' || c == '\t'
  }

  /** No two spaces in a row (stated on neighbouring positions `i` and `j == i + 1`). */
  ghost predicate NoDoubleSpace(s: string) {
    forall i, j :: 0 <= i < j < |s| && j == i + 1 ==> !(s[i] == ' ' && s[j] == ' ')
  }

  /** No three newlines in a row. */
  ghost predicate NoTripleNewline(s: string) {
    forall i, j, l :: 0 <= i < j < l < |s| && j == i + 1 && l == j + 1 ==>
      !(s[i] == '\n' && s[j] == '\n' && s[l] == '\n')
  }

  /** Drops the leading run of spaces and tabs. */
  function SkipBlanks(s: string): (r: string)
    ensures |r| <= |s|
  {
    if s != [] && IsBlank(s[0]) then SkipBlanks(s[1..]) else s
  }

  /** What `SkipBlanks` keeps is a suffix that does not start with a blank. */
  lemma {:induction false} SkipBlanksFacts(s: string)
    ensures SkipBlanks(s) == s[|s| - |SkipBlanks(s)|..]
    ensures SkipBlanks(s) != [] ==> !IsBlank(SkipBlanks(s)[0])
  {
    if s != [] && IsBlank(s[0]) {
      SkipBlanksFacts(s[1..]);
      assert s[1..][|s| - 1 - |SkipBlanks(s)|..] == s[|s| - |SkipBlanks(s)|..];
    }
  }

  /** `re.sub(r'[ \t]+', ' ', s)`: every maximal run of spaces and tabs becomes one space. */
  function CollapseBlanks(s: string): (r: string)
    ensures (r == []) == (s == [])
    ensures r != [] ==> r[0] == (if IsBlank(s[0]) then ' ' else s[0])
    decreases |s|
  {
    if s == [] then []
    else if IsBlank(s[0]) then [' '] + CollapseBlanks(SkipBlanks(s[1..]))
    else [s[0]] + CollapseBlanks(s[1..])
  }

  /** Prepending a character keeps "no two spaces in a row" unless it makes a pair. */
  lemma NoDoubleSpaceCons(x: char, r: string)
    requires NoDoubleSpace(r) && (x == ' ' && r != [] ==> r[0] != ' ')
    ensures NoDoubleSpace([x] + r)
  {
    var t := [x] + r;
    forall i, j | 0 <= i < j < |t| && j == i + 1 ensures !(t[i] == ' ' && t[j] == ' ') {
      assert t[j] == r[j - 1];
      if i > 0 {
        assert t[i] == r[i - 1];
      }
    }
  }

  /** After collapsing there is no tab and no two spaces in a row. */
  lemma {:induction false} CollapseBlanksNormal(s: string)
    ensures '\t' !in CollapseBlanks(s) && NoDoubleSpace(CollapseBlanks(s))
    decreases |s|
  {
    if s != [] {
      if IsBlank(s[0]) {
        var t := SkipBlanks(s[1..]);
        SkipBlanksFacts(s[1..]);
        CollapseBlanksNormal(t);
        NoDoubleSpaceCons(' ', CollapseBlanks(t));
      } else {
        CollapseBlanksNormal(s[1..]);
        NoDoubleSpaceCons(s[0], CollapseBlanks(s[1..]));
      }
    }
  }

  /** Collapsing only ever writes spaces and characters of its input. */
  lemma {:induction false} CollapseBlanksChars(s: string, c: char)
    requires c in CollapseBlanks(s) && c != ' '
    ensures c in s
    decreases |s|
  {
    if IsBlank(s[0]) {
      var rest := SkipBlanks(s[1..]);
      assert c in CollapseBlanks(rest);
      CollapseBlanksChars(rest, c);
      SkipBlanksFacts(s[1..]);
      assert rest == s[|s| - |rest|..];
    } else if c != s[0] {
      CollapseBlanksChars(s[1..], c);
    }
  }

  /** The length of the leading run of newlines. */
  function LeadingNewlines(s: string): (n: nat)
    ensures n <= |s|
  {
    if s != [] && s[0] == '\n' then 1 + LeadingNewlines(s[1..]) else 0
  }

  /** The leading run is all newlines and is followed by something else. */
  lemma {:induction false} LeadingNewlinesFacts(s: string)
    ensures forall k :: 0 <= k < LeadingNewlines(s) ==> s[k] == '\n'
    ensures LeadingNewlines(s) < |s| ==> s[LeadingNewlines(s)] != '\n'
  {
    if s != [] && s[0] == '\n' {
      LeadingNewlinesFacts(s[1..]);
      forall k | 1 <= k < LeadingNewlines(s) ensures s[k] == '\n' {
        assert s[k] == s[1..][k - 1];
      }
    }
  }

  /** `re.sub(r'\n{2,}', '\n\n', s)`: every run of two or more newlines becomes exactly two. */
  function SqueezeNewlines(s: string): (r: string)
    ensures (r == []) == (s == [])
    ensures r != [] ==> r[0] == s[0]
    decreases |s|
  {
    if s == [] then []
    else if s[0] == '\n' then
      var n := LeadingNewlines(s);
      (if n >= 2 then "\n\n" else "\n") + SqueezeNewlines(s[n..])
    else [s[0]] + SqueezeNewlines(s[1..])
  }

  /** Prepending a character keeps "no three newlines in a row" unless it makes a triple. */
  lemma NoTripleNewlineCons(x: char, r: string)
    requires NoTripleNewline(r) && (x == '\n' && |r| >= 2 ==> !(r[0] == '\n' && r[1] == '\n'))
    ensures NoTripleNewline([x] + r)
  {
    var t := [x] + r;
    forall i, j, l | 0 <= i < j < l < |t| && j == i + 1 && l == j + 1
      ensures !(t[i] == '\n' && t[j] == '\n' && t[l] == '\n')
    {
      assert t[j] == r[j - 1] && t[l] == r[l - 1];
      if i > 0 {
        assert t[i] == r[i - 1];
      }
    }
  }

  /** After squeezing there are no three newlines in a row. */
  lemma {:induction false} SqueezeNewlinesNormal(s: string)
    ensures NoTripleNewline(SqueezeNewlines(s))
    decreases |s|
  {
    if s != [] {
      if s[0] == '\n' {
        var n := LeadingNewlines(s);
        LeadingNewlinesFacts(s);
        var r := SqueezeNewlines(s[n..]);
        SqueezeNewlinesNormal(s[n..]);
        assert r != [] ==> r[0] != '\n';
        NoTripleNewlineCons('\n', r);
        if n >= 2 {
          NoTripleNewlineCons('\n', ['\n'] + r);
          assert "\n\n" + r == ['\n'] + (['\n'] + r);
        } else {
          assert "\n" + r == ['\n'] + r;
        }
      } else {
        SqueezeNewlinesNormal(s[1..]);
        NoTripleNewlineCons(s[0], SqueezeNewlines(s[1..]));
      }
    }
  }

  /** Squeezing only ever writes characters of its input. */
  lemma {:induction false} SqueezeNewlinesChars(s: string, c: char)
    requires c in SqueezeNewlines(s)
    ensures c in s
    decreases |s|
  {
    if s[0] == '\n' {
      var n := LeadingNewlines(s);
      if c != '\n' {
        SqueezeNewlinesChars(s[n..], c);
        assert c in s[n..];
      }
    } else if c != s[0] {
      SqueezeNewlinesChars(s[1..], c);
    }
  }

  /** Squeezing never brings two spaces together. */
  lemma {:induction false} SqueezeNewlinesSpaces(s: string)
    requires NoDoubleSpace(s)
    ensures NoDoubleSpace(SqueezeNewlines(s))
    decreases |s|
  {
    if s != [] {
      if s[0] == '\n' {
        var n := LeadingNewlines(s);
        var t := s[n..];
        assert NoDoubleSpace(t) by {
          forall i, j | 0 <= i < j < |t| && j == i + 1 ensures !(t[i] == ' ' && t[j] == ' ') {
            assert t[i] == s[n + i] && t[j] == s[n + j];
          }
        }
        SqueezeNewlinesSpaces(t);
        var r := SqueezeNewlines(t);
        NoDoubleSpaceCons('\n', r);
        if n >= 2 {
          NoDoubleSpaceCons('\n', ['\n'] + r);
          assert "\n\n" + r == ['\n'] + (['\n'] + r);
        } else {
          assert "\n" + r == ['\n'] + r;
        }
      } else {
        var t := s[1..];
        assert NoDoubleSpace(t) by {
          forall i, j | 0 <= i < j < |t| && j == i + 1 ensures !(t[i] == ' ' && t[j] == ' ') {
            assert t[i] == s[1 + i] && t[j] == s[1 + j];
          }
        }
        SqueezeNewlinesSpaces(t);
        NoDoubleSpaceCons(s[0], SqueezeNewlines(t));
      }
    }
  }

  /** The normalisation steps before the final strip. */
  function Normalise(txt: string): string {
    SqueezeNewlines(CollapseBlanks(ReplaceChar(txt, '\U{A0}', ' ')))
  }

  /**
   * `clean_text`: non-breaking spaces become spaces, runs of spaces and tabs
   * collapse to one space, runs of blank lines collapse to one, and the ends
   * are stripped.
   */
  function CleanText(txt: string): string {
    Strip(Normalise(txt))
  }

  /**
   * What cleaning guarantees: no non-breaking space, no tab, no two spaces
   * in a row, no three newlines in a row, and no whitespace at either end.
   */
  lemma CleanTextNormal(txt: string)
    ensures '\U{A0}' !in CleanText(txt) && '\t' !in CleanText(txt)
    ensures NoDoubleSpace(CleanText(txt)) && NoTripleNewline(CleanText(txt))
    ensures CleanText(txt) != [] ==> !IsSpace(CleanText(txt)[0]) && !IsSpace(CleanText(txt)[|CleanText(txt)| - 1])
  {
    NormaliseNormal(txt);
    StripKeeps(Normalise(txt));
  }

  /** Stripping keeps the normal form and leaves no whitespace at either end. */
  lemma StripKeeps(t: string)
    requires '\U{A0}' !in t && '\t' !in t && NoDoubleSpace(t) && NoTripleNewline(t)
    ensures '\U{A0}' !in Strip(t) && '\t' !in Strip(t) && NoDoubleSpace(Strip(t)) && NoTripleNewline(Strip(t))
    ensures Strip(t) != [] ==> !IsSpace(Strip(t)[0]) && !IsSpace(Strip(t)[|Strip(t)| - 1])
  {
    StripEnds(t);
    SliceKeeps(t, StripStart(t), StripEnd(t), Strip(t));
  }

  /** The normalised text has no non-breaking space, no tab, and no runs of spaces or of three newlines. */
  lemma NormaliseNormal(txt: string)
    ensures var t := Normalise(txt);
      '\U{A0}' !in t && '\t' !in t && NoDoubleSpace(t) && NoTripleNewline(t)
  {
    var b := CollapseBlanks(ReplaceChar(txt, '\U{A0}', ' '));
    CollapseBlanksNormal(ReplaceChar(txt, '\U{A0}', ' '));
    SqueezeNewlinesSpaces(b);
    SqueezeNewlinesNormal(b);
    NormaliseChars(txt);
  }

  /** Neither a non-breaking space nor a tab survives the normalisation. */
  lemma NormaliseChars(txt: string)
    ensures '\U{A0}' !in Normalise(txt) && '\t' !in Normalise(txt)
  {
    var a := ReplaceChar(txt, '\U{A0}', ' ');
    var b := CollapseBlanks(a);
    ReplaceCharChars(txt, '\U{A0}', ' ');
    CollapseBlanksNormal(a);
    if '\U{A0}' in Normalise(txt) {
      SqueezeNewlinesChars(b, '\U{A0}');
      CollapseBlanksChars(a, '\U{A0}');
      assert false;
    }
    if '\t' in Normalise(txt) {
      SqueezeNewlinesChars(b, '\t');
      assert false;
    }
  }

  /** A slice keeps every "no such character, no such run" property of the whole. */
  lemma SliceKeeps(t: string, i: nat, j: nat, r: string)
    requires i <= j <= |t| && r == t[i..j]
    ensures '\U{A0}' !in t ==> '\U{A0}' !in r
    ensures '\t' !in t ==> '\t' !in r
    ensures NoDoubleSpace(t) ==> NoDoubleSpace(r)
    ensures NoTripleNewline(t) ==> NoTripleNewline(r)
  {
    assert forall k :: 0 <= k < |r| ==> r[k] == t[i + k];
  }

  lemma {:induction false} CollapseBlanksIdentity(s: string)
    requires '\t' !in s && NoDoubleSpace(s)
    ensures CollapseBlanks(s) == s
    decreases |s|
  {
    if s != [] {
      var t := s[1..];
      assert '\t' !in t;
      assert NoDoubleSpace(t) by {
        forall i, j | 0 <= i < j < |t| && j == i + 1 ensures !(t[i] == ' ' && t[j] == ' ') {
          assert t[i] == s[i + 1] && t[j] == s[j + 1];
        }
      }
      CollapseBlanksIdentity(t);
      if s[0] == ' ' {
        if t != [] {
          assert t[0] == s[1];
          assert !IsBlank(t[0]);
        }
        assert SkipBlanks(t) == t;
      }
      assert s == [s[0]] + t;
    }
  }

  lemma {:induction false} SqueezeNewlinesIdentity(s: string)
    requires NoTripleNewline(s)
    ensures SqueezeNewlines(s) == s
    decreases |s|
  {
    if s != [] {
      if s[0] == '\n' {
        var n := LeadingNewlines(s);
        LeadingNewlinesFacts(s);
        assert |s| < 3 || !(s[0] == '\n' && s[1] == '\n' && s[2] == '\n');
        if n == 1 {
          assert s[..n] == "\n";
        } else {
          assert n == 2 && s[..n] == "\n\n";
        }
        var rest := s[n..];
        assert NoTripleNewline(rest) by {
          forall i, j, l | 0 <= i < j < l < |rest| && j == i + 1 && l == j + 1
            ensures !(rest[i] == '\n' && rest[j] == '\n' && rest[l] == '\n')
          {
            assert rest[i] == s[n + i] && rest[j] == s[n + j] && rest[l] == s[n + l];
          }
        }
        SqueezeNewlinesIdentity(rest);
        assert s == s[..n] + rest;
      } else {
        SqueezeNewlinesIdentity(s[1..]);
      }
    }
  }

  /** Cleaning is idempotent: a cleaned text has nothing left to clean. */
  lemma CleanTextIdempotent(txt: string)
    ensures CleanText(CleanText(txt)) == CleanText(txt)
  {
    var c := CleanText(txt);
    CleanTextNormal(txt);
    NormaliseIdentity(c);
    StripStripped(c);
  }

  /** Text already in the normal form is left alone by the normalisation. */
  lemma NormaliseIdentity(t: string)
    requires '\U{A0}' !in t && '\t' !in t && NoDoubleSpace(t) && NoTripleNewline(t)
    ensures Normalise(t) == t
  {
    ReplaceAbsent(t, '\U{A0}', ' ');
    CollapseBlanksIdentity(t);
    SqueezeNewlinesIdentity(t);
  }

  // ---------------------------------------------------------------------------
  // The sliding window of extract_pdf_chunks

  /** The half-open range `[start, end)` of one window. */
  datatype Window = Window(start: nat, end: nat)

  /**
   * The windows the loop visits from `start` on, over a piece of length `n`:
   * each non-empty and at most `size` long, the last one ending at `n`.
   */
  function SpansFrom(start: nat, n: nat, size: nat, overlap: nat): (r: seq<Window>)
    requires overlap < size && start < n
    ensures |r| >= 1 && r[0].start == start && r[|r| - 1].end == n
    decreases n - start
  {
    var end := Min(n, start + size);
    if end == n then [Window(start, end)]
    else [Window(start, end)] + SpansFrom(end - overlap, n, size, overlap)
  }

  /** Every window is a non-empty range inside `[0, n)`. */
  predicate Fits(ws: seq<Window>, n: nat) {
    ws == [] || (ws[0].start < ws[0].end <= n && Fits(ws[1..], n))
  }

  /** The windows from `start` on fit inside `[0, n)`. */
  lemma {:induction false} SpansFromFits(start: nat, n: nat, size: nat, overlap: nat)
    requires overlap < size && start < n
    ensures Fits(SpansFrom(start, n, size, overlap), n)
    decreases n - start
  {
    var end := Min(n, start + size);
    if end < n {
      var r := SpansFrom(start, n, size, overlap);
      var rest := SpansFrom(end - overlap, n, size, overlap);
      SpansFromFits(end - overlap, n, size, overlap);
      assert r[1..] == rest;
    }
  }

  /** A window of a fitting sequence, read at one position. */
  lemma {:induction false} FitsAt(ws: seq<Window>, n: nat, k: nat)
    requires Fits(ws, n) && k < |ws|
    ensures ws[k].start < ws[k].end <= n
  {
    if k > 0 {
      FitsAt(ws[1..], n, k - 1);
    }
  }

  /** Window `k` from `start` on: inside `[start, n)`, non-empty and at most `size` long. */
  lemma {:induction false} SpansFromAt(start: nat, n: nat, size: nat, overlap: nat, k: nat)
    requires overlap < size && start < n && k < |SpansFrom(start, n, size, overlap)|
    ensures start <= SpansFrom(start, n, size, overlap)[k].start < SpansFrom(start, n, size, overlap)[k].end <= n
    ensures SpansFrom(start, n, size, overlap)[k].end - SpansFrom(start, n, size, overlap)[k].start <= size
    decreases n - start
  {
    var r := SpansFrom(start, n, size, overlap);
    var end := Min(n, start + size);
    if end < n && k > 0 {
      var rest := SpansFrom(end - overlap, n, size, overlap);
      SpansFromAt(end - overlap, n, size, overlap, k - 1);
      assert r[k] == rest[k - 1];
    }
  }

  /** Neighbouring windows `a` then `b`: `a` is full and ends before `n`, and `b` starts `overlap` before its end. */
  predicate Linked(a: Window, b: Window, n: nat, size: nat, overlap: nat) {
    a.end < n && a.end - a.start == size && b.start + overlap == a.end
  }

  /** Every window is linked to the one after it. */
  predicate Chained(r: seq<Window>, n: nat, size: nat, overlap: nat) {
    |r| <= 1 || (Linked(r[0], r[1], n, size, overlap) && Chained(r[1..], n, size, overlap))
  }

  /** A chain read at one position: window `k` is linked to window `k + 1`. */
  lemma {:induction false} ChainedAt(r: seq<Window>, n: nat, size: nat, overlap: nat, k: nat)
    requires Chained(r, n, size, overlap) && k + 1 < |r|
    ensures Linked(r[k], r[k + 1], n, size, overlap)
  {
    if k > 0 {
      ChainedAt(r[1..], n, size, overlap, k - 1);
    }
  }

  lemma {:induction false} SpansFromChain(start: nat, n: nat, size: nat, overlap: nat)
    requires overlap < size && start < n
    ensures Chained(SpansFrom(start, n, size, overlap), n, size, overlap)
    decreases n - start
  {
    var end := Min(n, start + size);
    if end < n {
      var r := SpansFrom(start, n, size, overlap);
      var rest := SpansFrom(end - overlap, n, size, overlap);
      SpansFromChain(end - overlap, n, size, overlap);
      assert r == [Window(start, end)] + rest;
      assert r[1..] == rest;
    }
  }

  /** Position `p` lies inside one of the windows. */
  predicate Covered(spans: seq<Window>, p: nat) {
    exists k :: 0 <= k < |spans| && spans[k].start <= p < spans[k].end
  }

  lemma {:induction false} SpansFromCover(start: nat, n: nat, size: nat, overlap: nat, p: nat)
    requires overlap < size && start <= p < n
    ensures Covered(SpansFrom(start, n, size, overlap), p)
    decreases n - start
  {
    var r := SpansFrom(start, n, size, overlap);
    var end := if n <= start + size then n else start + size;
    if p < end {
      assert r[0] == Window(start, end);
      assert r[0].start <= p < r[0].end;
    } else {
      var rest := SpansFrom(end - overlap, n, size, overlap);
      SpansFromCover(end - overlap, n, size, overlap, p);
      var k :| 0 <= k < |rest| && rest[k].start <= p < rest[k].end;
      assert r[k + 1] == rest[k];
      assert r[k + 1].start <= p < r[k + 1].end;
    }
  }
  /** All the windows over a piece of length `n`; none for an empty piece. */
  function Spans(n: nat, size: nat, overlap: nat): (r: seq<Window>)
    requires overlap < size
    ensures Fits(r, n)
  {
    if n == 0 then [] else SpansFromFits(0, n, size, overlap); SpansFrom(0, n, size, overlap)
  }

  /**
   * The windows run from one end of the piece to the other: none for an empty
   * piece, otherwise the first starts at 0 and the last ends at its length.
   */
  lemma SpansEnds(n: nat, size: nat, overlap: nat)
    requires overlap < size
    ensures (n == 0 <==> Spans(n, size, overlap) == [])
    ensures n > 0 ==> Spans(n, size, overlap)[0].start == 0 && Spans(n, size, overlap)[|Spans(n, size, overlap)| - 1].end == n
  {
    if n > 0 {
      assert Spans(n, size, overlap) == SpansFrom(0, n, size, overlap);
    }
  }

  /** Each window is non-empty, at most `size` long and inside the piece. */
  lemma SpansBounds(n: nat, size: nat, overlap: nat, k: nat)
    requires overlap < size && k < |Spans(n, size, overlap)|
    ensures Spans(n, size, overlap)[k].start < Spans(n, size, overlap)[k].end <= n
    ensures Spans(n, size, overlap)[k].end - Spans(n, size, overlap)[k].start <= size
  {
    SpansFromAt(0, n, size, overlap, k);
  }

  /** Neighbouring windows share `overlap` characters. */
  lemma SpansChained(n: nat, size: nat, overlap: nat)
    requires overlap < size
    ensures Chained(Spans(n, size, overlap), n, size, overlap)
  {
    if n > 0 {
      SpansFromChain(0, n, size, overlap);
    }
  }

  /** Every position of the piece lies inside some window. */
  lemma SpansCover(n: nat, size: nat, overlap: nat)
    requires overlap < size
    ensures forall p: nat :: p < n ==> Covered(Spans(n, size, overlap), p)
  {
    forall p: nat | p < n ensures Covered(Spans(n, size, overlap), p) {
      SpansFromCover(0, n, size, overlap, p);
    }
  }

  /** `piece[:120].replace("\n", " ")`. */
  function SectionHint(piece: string): (h: string)
    ensures |h| == Min(120, |piece|)
  {
    ReplaceChar(Prefix(piece, 120), '\n', ' ')
  }

  /** The hint is the first 120 characters with every newline turned into a space. */
  lemma SectionHintChars(piece: string)
    ensures '\n' !in SectionHint(piece)
    ensures forall k :: 0 <= k < |SectionHint(piece)| ==>
      SectionHint(piece)[k] == (if piece[k] == '\n' then ' ' else piece[k])
  {
    var p := Prefix(piece, 120);
    var h := SectionHint(piece);
    forall k | 0 <= k < |h| ensures h[k] == (if piece[k] == '\n' then ' ' else piece[k]) {
      ReplaceCharAt(p, '\n', ' ', k);
    }
  }

  /** The chunk record for one window of a piece of page `pno`. */
  function WindowChunk(piece: string, w: Window, pno: nat, source: string): Chunk
    requires w.start <= w.end <= |piece|
  {
    Chunk(piece[w.start..w.end], pno + 1, pno + 1, source, SectionHint(piece))
  }

  /** The chunk records for a sequence of windows of a piece, in order. */
  function MapWindows(piece: string, ws: seq<Window>, pno: nat, source: string): (r: seq<Chunk>)
    requires Fits(ws, |piece|)
    ensures |r| == |ws|
  {
    if ws == [] then [] else [WindowChunk(piece, ws[0], pno, source)] + MapWindows(piece, ws[1..], pno, source)
  }

  /** The `k`-th chunk is the chunk of the `k`-th window. */
  lemma {:induction false} MapWindowsAt(piece: string, ws: seq<Window>, pno: nat, source: string, k: nat)
    requires Fits(ws, |piece|) && k < |ws|
    ensures ws[k].start < ws[k].end <= |piece|
      && MapWindows(piece, ws, pno, source)[k] == WindowChunk(piece, ws[k], pno, source)
  {
    FitsAt(ws, |piece|, k);
    if k > 0 {
      MapWindowsAt(piece, ws[1..], pno, source, k - 1);
    }
  }

  /** The chunk records the window loop emits from `start` on. */
  function ChunksFrom(piece: string, start: nat, pno: nat, source: string, size: nat, overlap: nat): (r: seq<Chunk>)
    requires overlap < size && start < |piece|
    decreases |piece| - start
  {
    var end := Min(|piece|, start + size);
    var c := WindowChunk(piece, Window(start, end), pno, source);
    if end == |piece| then [c] else [c] + ChunksFrom(piece, end - overlap, pno, source, size, overlap)
  }

  /** One step of the window loop: the window at `start`, then the rest unless it reached the end. */
  lemma ChunksFromStep(piece: string, start: nat, pno: nat, source: string, size: nat, overlap: nat, c: Chunk)
    requires overlap < size && start < |piece|
    requires c == Chunk(piece[start..Min(|piece|, start + size)], pno + 1, pno + 1, source, SectionHint(piece))
    ensures start + size >= |piece| ==> ChunksFrom(piece, start, pno, source, size, overlap) == [c]
    ensures start + size < |piece| ==>
      ChunksFrom(piece, start, pno, source, size, overlap) == [c] + ChunksFrom(piece, start + size - overlap, pno, source, size, overlap)
  {
  }

  /** The chunk records for one (stripped) piece of page `pno`, one per window. */
  function PieceChunks(piece: string, pno: nat, source: string, size: nat, overlap: nat): seq<Chunk>
    requires overlap < size
  {
    if piece == [] then [] else ChunksFrom(piece, 0, pno, source, size, overlap)
  }

  lemma {:induction false} ChunksFromWindows(piece: string, start: nat, pno: nat, source: string, size: nat, overlap: nat)
    requires overlap < size && start < |piece|
    ensures Fits(SpansFrom(start, |piece|, size, overlap), |piece|)
      && ChunksFrom(piece, start, pno, source, size, overlap) == MapWindows(piece, SpansFrom(start, |piece|, size, overlap), pno, source)
    decreases |piece| - start
  {
    var end := Min(|piece|, start + size);
    var ws := SpansFrom(start, |piece|, size, overlap);
    var c := WindowChunk(piece, Window(start, end), pno, source);
    SpansFromFits(start, |piece|, size, overlap);
    if end < |piece| {
      var next := end - overlap;
      var rest := SpansFrom(next, |piece|, size, overlap);
      SpansFromFits(next, |piece|, size, overlap);
      assert ws == [Window(start, end)] + rest;
      assert ws[1..] == rest;
      assert MapWindows(piece, ws, pno, source) == [c] + MapWindows(piece, rest, pno, source);
      ChunksFromWindows(piece, next, pno, source, size, overlap);
    } else {
      assert ws == [Window(start, end)];
    }
  }

  /** A piece's chunks are the chunks of its windows, in order. */
  lemma PieceChunksWindows(piece: string, pno: nat, source: string, size: nat, overlap: nat)
    requires overlap < size
    ensures PieceChunks(piece, pno, source, size, overlap) == MapWindows(piece, Spans(|piece|, size, overlap), pno, source)
  {
    if piece != [] {
      ChunksFromWindows(piece, 0, pno, source, size, overlap);
    }
  }

  /**
   * What one piece contributes: one chunk per window, in window order, whose
   * text is that window of the piece; and nothing for an empty piece.
   */
  lemma PieceChunksShape(piece: string, pno: nat, source: string, size: nat, overlap: nat)
    requires overlap < size
    ensures |PieceChunks(piece, pno, source, size, overlap)| == |Spans(|piece|, size, overlap)|
    ensures piece == [] <==> PieceChunks(piece, pno, source, size, overlap) == []
    ensures forall k :: 0 <= k < |Spans(|piece|, size, overlap)| ==>
      var w := Spans(|piece|, size, overlap)[k];
      w.start < w.end <= |piece| && PieceChunks(piece, pno, source, size, overlap)[k] == WindowChunk(piece, w, pno, source)
  {
    var ws := Spans(|piece|, size, overlap);
    var r := PieceChunks(piece, pno, source, size, overlap);
    PieceChunksWindows(piece, pno, source, size, overlap);
    forall k | 0 <= k < |ws| ensures ws[k].start < ws[k].end <= |piece| && r[k] == WindowChunk(piece, ws[k], pno, source) {
      MapWindowsAt(piece, ws, pno, source, k);
    }
  }

  /**
   * A chunk of one piece: a non-empty text of at most `size` characters, page
   * `pno + 1`, the given source, and the piece's section hint.
   */
  lemma PieceChunkShape(piece: string, pno: nat, source: string, size: nat, overlap: nat, c: Chunk)
    requires overlap < size && c in PieceChunks(piece, pno, source, size, overlap)
    ensures 0 < |c.text| <= size && c.pageStart == c.pageEnd == pno + 1
    ensures c.source == source && c.sectionHint == SectionHint(piece)
  {
    PieceChunksWindows(piece, pno, source, size, overlap);
    SpansChunkShape(piece, pno, source, size, overlap, c);
  }

  /** A chunk of one of the windows over a piece: its text is one window, at most `size` long and not empty. */
  lemma SpansChunkShape(piece: string, pno: nat, source: string, size: nat, overlap: nat, c: Chunk)
    requires overlap < size && c in MapWindows(piece, Spans(|piece|, size, overlap), pno, source)
    ensures 0 < |c.text| <= size && c.pageStart == c.pageEnd == pno + 1
    ensures c.source == source && c.sectionHint == SectionHint(piece)
  {
    var ws := Spans(|piece|, size, overlap);
    var r := MapWindows(piece, ws, pno, source);
    var k :| 0 <= k < |r| && r[k] == c;
    MapWindowsAt(piece, ws, pno, source, k);
    SpansFromAt(0, |piece|, size, overlap, k);
  }

  /**
   * The inner `while` loop of `extract_pdf_chunks` over one stripped piece:
   * emit `piece[start:end]`, stop once `end` reaches the end of the piece,
   * otherwise step back `overlap` characters.
   */
  method WindowChunks(piece: string, pno: nat, source: string, chunkSize: nat, overlap: nat)
    returns (out: seq<Chunk>)
    requires overlap < chunkSize
    ensures out == PieceChunks(piece, pno, source, chunkSize, overlap)
  {
    var hint := SectionHint(piece);
    out := [];
    var start := 0;
    while start < |piece|
      invariant start < |piece| ==>
        out + ChunksFrom(piece, start, pno, source, chunkSize, overlap) == PieceChunks(piece, pno, source, chunkSize, overlap)
      invariant start >= |piece| ==> piece == [] && out == []
      decreases |piece| - start
    {
      var end := Min(|piece|, start + chunkSize);
      var c := Chunk(piece[start..end], pno + 1, pno + 1, source, hint);
      ChunksFromStep(piece, start, pno, source, chunkSize, overlap, c);
      if end == |piece| {
        out := out + [c];
        break;
      }
      out := out + [c];
      start := end - overlap;
    }
  }

  /** Where the last path component of `path[..i]` starts: just past its last `/`, or 0. */
  function BaseStart(path: string, i: nat): (j: nat)
    requires i <= |path|
    ensures j <= i
  {
    if i == 0 || path[i - 1] == '/' then i else BaseStart(path, i - 1)
  }

  /** What `BaseStart` passes over holds no `/`, and it stops just past one (or at the start). */
  lemma {:induction false} BaseStartFacts(path: string, i: nat)
    requires i <= |path|
    ensures forall k :: BaseStart(path, i) <= k < i ==> path[k] != '/'
    ensures BaseStart(path, i) > 0 ==> path[BaseStart(path, i) - 1] == '/'
  {
    if i > 0 && path[i - 1] != '/' {
      BaseStartFacts(path, i - 1);
    }
  }

  /** A start just past a `/` (or at 0) with no `/` up to `i` is the one `BaseStart` finds. */
  lemma {:induction false} BaseStartAt(path: string, lo: nat, i: nat)
    requires lo <= i <= |path|
    requires lo == 0 || path[lo - 1] == '/'
    requires forall k :: lo <= k < i ==> path[k] != '/'
    ensures BaseStart(path, i) == lo
  {
    if i > lo {
      BaseStartAt(path, lo, i - 1);
    }
  }

  /** `os.path.basename(path)` for POSIX paths: what follows the last `/`. */
  function Basename(path: string): (r: string)
    ensures |r| <= |path|
  {
    path[BaseStart(path, |path|)..]
  }

  /** The base name is the tail of the path after its last `/`: a suffix holding no `/`, preceded by one. */
  lemma BasenameFacts(path: string)
    ensures Basename(path) == path[|path| - |Basename(path)|..]
    ensures '/' !in Basename(path)
    ensures |Basename(path)| < |path| ==> path[|path| - |Basename(path)| - 1] == '/'
  {
    BaseStartFacts(path, |path|);
    var i := BaseStart(path, |path|);
    forall c | c in path[i..] ensures c != '/' {
      var k :| 0 <= k < |path[i..]| && path[i..][k] == c;
      assert path[i + k] == c;
    }
  }

  /** Joining a directory and a `/`-free name with `/` and taking the base name gives the name back. */
  lemma BasenameJoin(dir: string, name: string)
    requires '/' !in name
    ensures Basename(dir + ['/'] + name) == name
  {
    var path := dir + ['/'] + name;
    forall k | |dir| + 1 <= k < |path| ensures path[k] != '/' {
      assert path[k] == name[k - |dir| - 1];
    }
    BaseStartAt(path, |dir| + 1, |path|);
    assert path[|dir| + 1..] == name;
  }

  /** The pieces of a page: the heading split, or the whole text when it did not split. */
  function PagePieces(text: string, split: seq<string>): seq<string> {
    if |split| == 1 then [text] else split
  }

  /** The chunks of a page's pieces, piece by piece, each stripped first. */
  function PiecesChunks(pieces: seq<string>, pno: nat, source: string, size: nat, overlap: nat): seq<Chunk>
    requires overlap < size
  {
    if pieces == [] then []
    else (PiecesChunks(pieces[..|pieces| - 1], pno, source, size, overlap)
          + PieceChunks(Strip(pieces[|pieces| - 1]), pno, source, size, overlap))
  }

  /** The cleaned text of every page, in page order. */
  function CleanPages(pages: seq<string>): seq<string> {
    seq(|pages|, k requires 0 <= k < |pages| => CleanText(pages[k]))
  }

  /** The chunks of page `pno`, given its cleaned text: none when that is empty. */
  function PageChunks(text: string, split: seq<string>, pno: nat, source: string, size: nat, overlap: nat): seq<Chunk>
    requires overlap < size
  {
    if text == [] then [] else PiecesChunks(PagePieces(text, split), pno, source, size, overlap)
  }

  /** The chunks of each page, given the cleaned texts, in page order. */
  function PageResults(texts: seq<string>, splits: seq<seq<string>>, source: string, size: nat, overlap: nat): (r: seq<seq<Chunk>>)
    requires |texts| == |splits| && overlap < size
    ensures |r| == |texts|
  {
    seq(|texts|, k requires 0 <= k < |texts| => PageChunks(texts[k], splits[k], k, source, size, overlap))
  }

  /** The chunks of a whole document, given its cleaned page texts: page after page. */
  function DocChunks(texts: seq<string>, splits: seq<seq<string>>, source: string, size: nat, overlap: nat): seq<Chunk>
    requires |texts| == |splits| && overlap < size
  {
    Concat(PageResults(texts, splits, source, size, overlap))
  }

  /** Page `k` of the results holds the chunks of the cleaned page `k`. */
  lemma PageResultAt(pages: seq<string>, splits: seq<seq<string>>, source: string, size: nat, overlap: nat, k: nat)
    requires |splits| == |pages| && overlap < size && k < |pages|
    ensures PageResults(CleanPages(pages), splits, source, size, overlap)[k]
      == PageChunks(CleanText(pages[k]), splits[k], k, source, size, overlap)
  {
    assert CleanPages(pages)[k] == CleanText(pages[k]);
  }

  /**
   * `extract_pdf_chunks` over already-read pages: clean each page, skip it
   * when nothing is left, take its pieces, skip the empty ones, and window
   * the rest, all labelled with the file's base name.
   */
  method ExtractChunks(path: string, pages: seq<string>, splits: seq<seq<string>>, chunkSize: nat, overlap: nat)
    returns (chunks: seq<Chunk>)
    requires |splits| == |pages|
    requires overlap < chunkSize
    ensures chunks == DocChunks(CleanPages(pages), splits, Basename(path), chunkSize, overlap)
  {
    var source := Basename(path);
    ghost var texts := CleanPages(pages);
    ghost var parts := PageResults(texts, splits, source, chunkSize, overlap);
    chunks := [];
    for pno := 0 to |pages|
      invariant chunks == Concat(parts[..pno])
    {
      var more := PageLoop(pages[pno], splits[pno], pno, source, chunkSize, overlap);
      PageResultAt(pages, splits, source, chunkSize, overlap, pno);
      ConcatPrefix(parts, pno);
      chunks := chunks + more;
    }
    assert parts[..|pages|] == parts;
  }

  /** The body of the page loop: clean the page, skip it when nothing is left, else chunk its pieces. */
  method PageLoop(raw: string, split: seq<string>, pno: nat, source: string, chunkSize: nat, overlap: nat)
    returns (chunks: seq<Chunk>)
    requires overlap < chunkSize
    ensures chunks == PageChunks(CleanText(raw), split, pno, source, chunkSize, overlap)
  {
    var text := CleanText(raw);
    if text == [] {
      return [];
    }
    var pieces := split;
    if |pieces| == 1 {
      pieces := [text];
    }
    chunks := PiecesLoop(pieces, pno, source, chunkSize, overlap);
  }

  /** The loop over one page's pieces: strip each, skip the empty ones, window the rest. */
  method PiecesLoop(pieces: seq<string>, pno: nat, source: string, chunkSize: nat, overlap: nat)
    returns (chunks: seq<Chunk>)
    requires overlap < chunkSize
    ensures chunks == PiecesChunks(pieces, pno, source, chunkSize, overlap)
  {
    chunks := [];
    for j := 0 to |pieces|
      invariant chunks == PiecesChunks(pieces[..j], pno, source, chunkSize, overlap)
    {
      assert pieces[..j + 1][..j] == pieces[..j];
      var piece := Strip(pieces[j]);
      if piece == [] {
        continue;
      }
      var w := WindowChunks(piece, pno, source, chunkSize, overlap);
      chunks := chunks + w;
    }
    assert pieces[..|pieces|] == pieces;
  }

  /** A chunk of page `pno`: that page, 1-based, from a page whose cleaned text is not empty. */
  lemma PageChunkShape(text: string, split: seq<string>, pno: nat, source: string, size: nat, overlap: nat, c: Chunk)
    requires overlap < size && c in PageChunks(text, split, pno, source, size, overlap)
    ensures c.pageStart == c.pageEnd == pno + 1 && c.source == source
    ensures 0 < |c.text| <= size && |c.sectionHint| <= 120
    ensures text != []
  {
    PiecesChunkShape(PagePieces(text, split), pno, source, size, overlap, c);
  }

  /**
   * Every chunk of a document: one page (`page_start == page_end`, 1-based,
   * within the document), the given source, a non-empty text of at most
   * `size` characters, a hint of at most 120 characters, and a page whose
   * cleaned text is not empty.
   */
  lemma DocChunksShape(texts: seq<string>, splits: seq<seq<string>>, source: string, size: nat, overlap: nat, c: Chunk)
    requires |texts| == |splits| && overlap < size
    requires c in DocChunks(texts, splits, source, size, overlap)
    ensures 1 <= c.pageStart == c.pageEnd <= |texts| && c.source == source
    ensures 0 < |c.text| <= size && |c.sectionHint| <= 120
    ensures texts[c.pageStart - 1] != []
  {
    var parts := PageResults(texts, splits, source, size, overlap);
    ConcatMember(parts, c);
    var k :| 0 <= k < |parts| && c in parts[k];
    PageResultShape(texts, splits, source, size, overlap, k, c);
  }

  /** A chunk of the `k`-th page result: page `k + 1`, from a page whose cleaned text is not empty. */
  lemma PageResultShape(texts: seq<string>, splits: seq<seq<string>>, source: string, size: nat, overlap: nat, k: nat, c: Chunk)
    requires |texts| == |splits| && overlap < size && k < |texts|
    requires c in PageResults(texts, splits, source, size, overlap)[k]
    ensures c.pageStart == c.pageEnd == k + 1 && c.source == source
    ensures 0 < |c.text| <= size && |c.sectionHint| <= 120
    ensures texts[k] != []
  {
    assert PageResults(texts, splits, source, size, overlap)[k] == PageChunks(texts[k], splits[k], k, source, size, overlap);
    PageChunkShape(texts[k], splits[k], k, source, size, overlap, c);
  }

  /** A chunk of a page's pieces: page `pno + 1`, the given source, a bounded text and hint. */
  lemma {:induction false} PiecesChunkShape(pieces: seq<string>, pno: nat, source: string, size: nat, overlap: nat, c: Chunk)
    requires overlap < size && c in PiecesChunks(pieces, pno, source, size, overlap)
    ensures c.pageStart == c.pageEnd == pno + 1 && c.source == source
    ensures 0 < |c.text| <= size && |c.sectionHint| <= 120
  {
    var init := PiecesChunks(pieces[..|pieces| - 1], pno, source, size, overlap);
    var piece := Strip(pieces[|pieces| - 1]);
    if c in init {
      PiecesChunkShape(pieces[..|pieces| - 1], pno, source, size, overlap, c);
    } else {
      PieceChunkShape(piece, pno, source, size, overlap, c);
    }
  }
}
