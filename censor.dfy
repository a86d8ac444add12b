/** The page loop of `censor_partial_cpf_in_pdf`: for every CPF that finditer
    reports in a page's text, every rectangle the page's search returns for it
    gets two black redaction annotations, one over the first three characters
    and one over the last two; then the page applies its redactions. */
module Censor {
  import opened Wrappers
  import opened CpfPattern
  import opened MaskRegion

  /** An RGB fill colour with components in [0, 1], as PyMuPDF takes it. */
  datatype Color = Rgb(red: real, green: real, blue: real)

  /** `fill=(0, 0, 0)`. */
  const Black := Rgb(0.0, 0.0, 0.0)

  /** A redaction annotation: the area it covers and the colour it is filled with. */
  datatype Annot = Redact(area: Rect, fill: Color)

  // ---------------------------------------------------------------------------
  // What the loops add, as functions
  // ---------------------------------------------------------------------------

  /** The annotations the rectangle loop adds for the rectangles rs found for a
      match of n characters: nothing when the `total_chars < 5` guard skips, and
      otherwise, rectangle by rectangle, the left mask followed by the right mask. */
  function RectAnnots(rs: seq<Rect>, n: nat): (r: seq<Annot>)
    ensures n < 5 ==> r == []
    ensures 5 <= n ==> |r| == 2 * |rs|
    ensures 5 <= n ==> forall i :: 0 <= i < |rs| ==>
              r[2 * i] == Redact(LeftMask(rs[i], n), Black) &&
              r[2 * i + 1] == Redact(RightMask(rs[i], n), Black)
  {
    if rs == [] then []
    else
      var init := RectAnnots(rs[..|rs| - 1], n);
      match Masks(rs[|rs| - 1], n)
      case None => init
      case Some((left, right)) => init + [Redact(left, Black), Redact(right, Black)]
  }

  /** The annotations the match loop adds for the matches ms, each looked up
      by its text with `search`: at most two per rectangle found. */
  function MatchAnnots(ms: seq<Match>, search: string -> seq<Rect>): (r: seq<Annot>)
    ensures |r| <= 2 * RectTotal(ms, search)
  {
    if ms == [] then []
    else
      var m := ms[|ms| - 1];
      MatchAnnots(ms[..|ms| - 1], search) + RectAnnots(search(m.text), |m.text|)
  }

  /** The annotations added to a page whose text is t. Every match finditer
      reports is 11 or 14 characters long, so the page gets exactly two
      annotations per rectangle found: the `total_chars < 5` guard never skips. */
  function PageAnnots(t: string, search: string -> seq<Rect>): (r: seq<Annot>)
    ensures |r| == 2 * RectTotal(FindIter(t), search)
  {
    FindIterShape(t);
    MatchAnnotsCount(FindIter(t), search);
    MatchAnnots(FindIter(t), search)
  }

  /** How many rectangles `search` returns over all matches ms. */
  function RectTotal(ms: seq<Match>, search: string -> seq<Rect>): nat
  {
    if ms == [] then 0
    else RectTotal(ms[..|ms| - 1], search) + |search(ms[|ms| - 1].text)|
  }

  /** a is the left or the right mask, in black, of a rectangle that `search`
      returns for some match in ms long enough to pass the guard. */
  predicate MaskOfMatch(ms: seq<Match>, search: string -> seq<Rect>, a: Annot)
  {
    exists i, r :: 0 <= i < |ms| && r in search(ms[i].text) && 5 <= |ms[i].text| &&
      (a == Redact(LeftMask(r, |ms[i].text|), Black) || a == Redact(RightMask(r, |ms[i].text|), Black))
  }

  /** a is the left or the right mask, in black, of a rectangle that `search`
      returns for the n characters of a CPF that finditer reports at p. */
  predicate MaskOfCpfAt(t: string, search: string -> seq<Rect>, a: Annot, p: nat, n: nat)
    requires p <= |t|
  {
    MatchAt(t, p) == Some(n) &&
    exists r :: r in search(t[p..p + n]) &&
      (a == Redact(LeftMask(r, n), Black) || a == Redact(RightMask(r, n), Black))
  }

  /** One more rectangle adds its two masks, or nothing when the guard skips. */
  lemma RectAnnotsStep(rs: seq<Rect>, j: nat, n: nat)
    requires j < |rs|
    ensures n < 5 ==> RectAnnots(rs[..j + 1], n) == RectAnnots(rs[..j], n)
    ensures 5 <= n ==>
              RectAnnots(rs[..j + 1], n) ==
              RectAnnots(rs[..j], n) + [Redact(LeftMask(rs[j], n), Black), Redact(RightMask(rs[j], n), Black)]
  {
    assert rs[..j + 1][..j] == rs[..j];
  }

  /** One more match adds the annotations of its rectangles. */
  lemma MatchAnnotsStep(ms: seq<Match>, i: nat, search: string -> seq<Rect>)
    requires i < |ms|
    ensures MatchAnnots(ms[..i + 1], search) ==
              MatchAnnots(ms[..i], search) + RectAnnots(search(ms[i].text), |ms[i].text|)
  {
    assert ms[..i + 1][..i] == ms[..i];
  }

  // ---------------------------------------------------------------------------
  // Properties
  // ---------------------------------------------------------------------------

  /** An annotation comes out of the rectangle loop exactly when it is the left
      or right black mask of one of the rectangles and the guard lets n through. */
  lemma RectAnnotsMembers(rs: seq<Rect>, n: nat, a: Annot)
    ensures a in RectAnnots(rs, n) <==>
              5 <= n && exists r :: r in rs && (a == Redact(LeftMask(r, n), Black) || a == Redact(RightMask(r, n), Black))
  {
    var out := RectAnnots(rs, n);
    if 5 <= n {
      if a in out {
        var k :| 0 <= k < |out| && out[k] == a;
        var i := k / 2;
        assert k == 2 * i || k == 2 * i + 1;
        assert rs[i] in rs;
      }
      if r :| r in rs && (a == Redact(LeftMask(r, n), Black) || a == Redact(RightMask(r, n), Black)) {
        var i :| 0 <= i < |rs| && rs[i] == r;
        assert out[2 * i] == Redact(LeftMask(r, n), Black);
        assert out[2 * i + 1] == Redact(RightMask(r, n), Black);
      }
    }
  }

  /** Every annotation the match loop adds is a black mask of a rectangle found
      for one of the matches, and every such mask is added. */
  lemma {:induction false} MatchAnnotsMembers(ms: seq<Match>, search: string -> seq<Rect>, a: Annot)
    ensures a in MatchAnnots(ms, search) <==> MaskOfMatch(ms, search, a)
  {
    if ms != [] {
      var init, m := ms[..|ms| - 1], ms[|ms| - 1];
      var n := |m.text|;
      MatchAnnotsMembers(init, search, a);
      RectAnnotsMembers(search(m.text), n, a);
      assert MatchAnnots(ms, search) == MatchAnnots(init, search) + RectAnnots(search(m.text), n);
      if MaskOfMatch(ms, search, a) {
        var i, r :| 0 <= i < |ms| && r in search(ms[i].text) && 5 <= |ms[i].text| &&
          (a == Redact(LeftMask(r, |ms[i].text|), Black) || a == Redact(RightMask(r, |ms[i].text|), Black));
        if i < |init| {
          assert init[i] == ms[i];
          assert MaskOfMatch(init, search, a);
        } else {
          assert ms[i] == m;
        }
      }
      if MaskOfMatch(init, search, a) {
        var i, r :| 0 <= i < |init| && r in search(init[i].text) && 5 <= |init[i].text| &&
          (a == Redact(LeftMask(r, |init[i].text|), Black) || a == Redact(RightMask(r, |init[i].text|), Black));
        assert ms[i] == init[i];
      }
      if a in RectAnnots(search(m.text), n) {
        assert ms[|ms| - 1] == m;
      }
    }
  }

  /** When every match passes the guard, the match loop adds exactly two
      annotations per rectangle found. */
  lemma {:induction false} MatchAnnotsCount(ms: seq<Match>, search: string -> seq<Rect>)
    requires forall i :: 0 <= i < |ms| ==> 5 <= |ms[i].text|
    ensures |MatchAnnots(ms, search)| == 2 * RectTotal(ms, search)
  {
    if ms != [] {
      var init := ms[..|ms| - 1];
      assert forall i :: 0 <= i < |init| ==> init[i] == ms[i];
      MatchAnnotsCount(init, search);
    }
  }

  /** Every annotation of a page is black. */
  lemma PageAnnotsAreBlack(t: string, search: string -> seq<Rect>)
    ensures forall a :: a in PageAnnots(t, search) ==> a.fill == Black
  {
    forall a | a in PageAnnots(t, search) ensures a.fill == Black {
      MatchAnnotsMembers(FindIter(t), search, a);
    }
  }

  /** The annotations of a page are exactly the black left and right masks of
      every rectangle `search` returns for every CPF that starts a finditer
      match, stated against the match attempt (`MatchAt`) at each position. */
  lemma PageAnnotsMembers(t: string, search: string -> seq<Rect>, a: Annot)
    ensures a in PageAnnots(t, search) <==>
              exists p: nat, n: nat :: p <= |t| && MaskOfCpfAt(t, search, a, p, n)
  {
    MatchAnnotsMembers(FindIter(t), search, a);
    if MaskOfMatch(FindIter(t), search, a) {
      PageMaskIsCpfMask(t, search, a);
    }
    if exists p: nat, n: nat :: p <= |t| && MaskOfCpfAt(t, search, a, p, n) {
      var p: nat, n: nat :| p <= |t| && MaskOfCpfAt(t, search, a, p, n);
      CpfMaskIsPageMask(t, search, a, p, n);
    }
  }

  lemma PageMaskIsCpfMask(t: string, search: string -> seq<Rect>, a: Annot)
    requires MaskOfMatch(FindIter(t), search, a)
    ensures exists p: nat, n: nat :: p <= |t| && MaskOfCpfAt(t, search, a, p, n)
  {
    var ms := FindIter(t);
    FindIterInOrder(t);
    var i, r :| 0 <= i < |ms| && r in search(ms[i].text) && 5 <= |ms[i].text| &&
      (a == Redact(LeftMask(r, |ms[i].text|), Black) || a == Redact(RightMask(r, |ms[i].text|), Black));
    var m := ms[i];
    var p, n := m.start, |m.text|;
    assert m.text == t[m.start..m.end] && MatchAt(t, m.start) == Some(m.end - m.start);
    assert m.end == p + n && m.text == t[p..p + n];
    assert r in search(t[p..p + n]);
    assert MaskOfCpfAt(t, search, a, p, n);
  }

  lemma CpfMaskIsPageMask(t: string, search: string -> seq<Rect>, a: Annot, p: nat, n: nat)
    requires p <= |t| && MaskOfCpfAt(t, search, a, p, n)
    ensures MaskOfMatch(FindIter(t), search, a)
  {
    var ms := FindIter(t);
    var r :| r in search(t[p..p + n]) &&
      (a == Redact(LeftMask(r, n), Black) || a == Redact(RightMask(r, n), Black));
    FindIterExactlyTheMatches(t, p);
    FindIterInOrder(t);
    var i :| 0 <= i < |ms| && ms[i].start == p;
    assert ms[i].text == t[p..p + n];
  }

  /** What one match looks like under its masks: on a rectangle of positive
      width holding the n characters of a match, under the uniform-width
      assumption, character k is covered by a mask exactly when it is among the
      first three or the last two, and then it is a digit; the characters so
      covered are digits 1-3 and 10-11 of the CPF. */
  lemma MaskedCharacters(t: string, i: nat, r: Rect, k: nat)
    requires i < |FindIter(t)| && r.x0 < r.x1
    requires k < |FindIter(t)[i].text|
    ensures var s := FindIter(t)[i].text; var n := |s|;
              (OverlapsX(Cell(r, n, k), LeftMask(r, n)) || OverlapsX(Cell(r, n, k), RightMask(r, n)))
                <==> (k < 3 || n - 2 <= k)
    ensures var s := FindIter(t)[i].text;
              (k < 3 || |s| - 2 <= k) ==> IsDigit(s[k])
    ensures var s := FindIter(t)[i].text;
              |Digits(s)| == 11 && s[..3] + s[|s| - 2..] == Digits(s)[..3] + Digits(s)[9..]
  {
    FindIterShape(t);
    var s := FindIter(t)[i].text;
    MaskCells(r, |s|, k);
    CpfCharAt(s, k);
    CpfDigitLayout(s);
  }

  // ---------------------------------------------------------------------------
  // The page and the loop
  // ---------------------------------------------------------------------------

  /** A PDF page as the loop sees it: its extracted text, its text search,
      the redaction annotations added and not yet applied, and those applied. */
  class Page {
    const text: string
    const search: string -> seq<Rect>
    var pending: seq<Annot>
    var applied: seq<Annot>

    constructor (text: string, search: string -> seq<Rect>)
      ensures this.text == text && this.search == search
      ensures pending == [] && applied == []
    {
      this.text := text;
      this.search := search;
      pending := [];
      applied := [];
    }

    /** `page.add_redact_annot(area, fill=...)`. */
    method AddRedactAnnot(area: Rect, fill: Color)
      modifies this
      ensures pending == old(pending) + [Redact(area, fill)]
      ensures applied == old(applied)
    {
      pending := pending + [Redact(area, fill)];
    }

    /** `page.apply_redactions()`: the pending annotations take effect, in order. */
    method ApplyRedactions()
      modifies this
      ensures applied == old(applied) + old(pending)
      ensures pending == []
    {
      applied := applied + pending;
      pending := [];
    }
  }

  /** The body of the page loop up to the redactions being applied: scan the
      text, search every match, and add two masks per rectangle. */
  method AnnotatePage(page: Page)
    modifies page
    ensures page.pending == old(page.pending) + PageAnnots(page.text, page.search)
    ensures page.applied == old(page.applied)
  {
    var text := page.text;
    AnnotateMatches(page, FindIter(text));
  }

  /** The match loop over the matches finditer reported. */
  method AnnotateMatches(page: Page, matches: seq<Match>)
    modifies page
    ensures page.pending == old(page.pending) + MatchAnnots(matches, page.search)
    ensures page.applied == old(page.applied)
  {
    var i := 0;
    while i < |matches|
      invariant 0 <= i <= |matches|
      invariant page.pending == old(page.pending) + MatchAnnots(matches[..i], page.search)
      invariant page.applied == old(page.applied)
    {
      var matchedText := matches[i].text;
      var rects := page.search(matchedText);
      AnnotateRects(page, rects, |matchedText|);
      MatchAnnotsStep(matches, i, page.search);
      i := i + 1;
    }
    assert matches[..i] == matches;
  }

  /** The rectangle loop for one match of totalChars characters. */
  method AnnotateRects(page: Page, rects: seq<Rect>, totalChars: nat)
    modifies page
    ensures page.pending == old(page.pending) + RectAnnots(rects, totalChars)
    ensures page.applied == old(page.applied)
  {
    var j := 0;
    while j < |rects|
      invariant 0 <= j <= |rects|
      invariant page.pending == old(page.pending) + RectAnnots(rects[..j], totalChars)
      invariant page.applied == old(page.applied)
    {
      var rect := rects[j];
      RectAnnotsStep(rects, j, totalChars);
      if totalChars < 5 {
        j := j + 1;
        continue;
      }
      var leftRect := LeftMask(rect, totalChars);
      var rightRect := RightMask(rect, totalChars);
      page.AddRedactAnnot(leftRect, Black);
      page.AddRedactAnnot(rightRect, Black);
      j := j + 1;
    }
    assert rects[..j] == rects;
  }

  /** One pass of the page loop: the page gets its masks and applies them. */
  method CensorPage(page: Page)
    modifies page
    ensures page.pending == []
    ensures page.applied == old(page.applied) + old(page.pending) + PageAnnots(page.text, page.search)
  {
    AnnotatePage(page);
    page.ApplyRedactions();
  }

  /** The page loop of `censor_partial_cpf_in_pdf` over a document's pages:
      afterwards no page has anything pending, and each page's applied
      redactions are its earlier ones followed by its masks in scan order. */
  method CensorPartialCpf(doc: seq<Page>)
    requires forall i, j :: 0 <= i < j < |doc| ==> doc[i] != doc[j]
    modifies set p | p in doc
    ensures forall i :: 0 <= i < |doc| ==>
              doc[i].pending == [] &&
              doc[i].applied == old(doc[i].applied) + old(doc[i].pending) + PageAnnots(doc[i].text, doc[i].search)
  {
    var k := 0;
    while k < |doc|
      invariant 0 <= k <= |doc|
      invariant forall i :: 0 <= i < k ==>
                  doc[i].pending == [] &&
                  doc[i].applied == old(doc[i].applied) + old(doc[i].pending) + PageAnnots(doc[i].text, doc[i].search)
      invariant forall i :: k <= i < |doc| ==>
                  doc[i].pending == old(doc[i].pending) && doc[i].applied == old(doc[i].applied)
    {
      var page := doc[k];
      assert forall i :: 0 <= i < |doc| && i != k ==> doc[i] != page;
      CensorPage(page);
      k := k + 1;
    }
  }
}
