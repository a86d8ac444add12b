/** The CPF recogniser of censor.py: the regular expression
      \b(?:\d{3}\.\d{3}\.\d{3}-\d{2}|\d{11})\b
    and the left-to-right, non-overlapping scan that `finditer` performs with it.
    The expression is modelled by its structure (atoms, two fixed-length branches
    tried in order, a word boundary on each side) and then proved equal to a
    plain index-level description of what it accepts. */
module CpfPattern {
  import opened Wrappers

  /** `\d`, restricted to ASCII. */
  predicate IsDigit(c: char) {
    '0' <= c <= '9'
  }

  /** `\w`, restricted to ASCII: letters, digits and the underscore. */
  predicate IsWordChar(c: char)
    ensures IsDigit(c) ==> IsWordChar(c)
    ensures c == '.' || c == '-' ==> !IsWordChar(c)
  {
    IsDigit(c) || 'a' <= c <= 'z' || 'A' <= c <= 'Z' || c == '_'
  }

  /** `\b` at offset i of t: a word character on exactly one side of i. */
  predicate IsBoundary(t: string, i: nat)
    requires i <= |t|
    ensures IsBoundary(t, i) ==> 0 < |t|
  {
    (0 < i && IsWordChar(t[i - 1])) != (i < |t| && IsWordChar(t[i]))
  }

  /** `\b` at the two ends of the text: never in an empty text, and at either
      end exactly when the character beside it is a word character. */
  lemma BoundaryAtEnds(t: string)
    ensures |t| == 0 ==> !IsBoundary(t, 0)
    ensures 0 < |t| ==> (IsBoundary(t, 0) <==> IsWordChar(t[0]))
    ensures 0 < |t| ==> (IsBoundary(t, |t|) <==> IsWordChar(t[|t| - 1]))
  {
  }

  // ---------------------------------------------------------------------------
  // The expression, by its structure
  // ---------------------------------------------------------------------------

  /** One position of a branch: `\d` or a literal character. */
  datatype Atom = Digit | Lit(c: char)

  predicate AtomMatches(a: Atom, c: char) {
    match a
    case Digit => IsDigit(c)
    case Lit(l) => c == l
  }

  /** `a{k}` */
  function Rep(a: Atom, k: nat): seq<Atom> {
    seq(k, _ => a)
  }

  /** The first branch, `\d{3}\.\d{3}\.\d{3}-\d{2}`. */
  const FormattedBranch: seq<Atom> :=
    Rep(Digit, 3) + [Lit('.')] + Rep(Digit, 3) + [Lit('.')] + Rep(Digit, 3) + [Lit('-')] + Rep(Digit, 2)

  /** The second branch, `\d{11}`. */
  const PlainBranch: seq<Atom> := Rep(Digit, 11)

  /** The alternation `(?:…|…)`, in the order the engine tries it. */
  const CpfBranches: seq<seq<Atom>> := [FormattedBranch, PlainBranch]

  /** A branch (a fixed-length sequence of atoms) matches all of s. */
  predicate Matches(pat: seq<Atom>, s: string)
    decreases |pat|
  {
    if pat == [] then s == []
    else s != [] && AtomMatches(pat[0], s[0]) && Matches(pat[1..], s[1..])
  }

  /** The branch `alt` followed by the closing `\b` matches at offset p of t. */
  predicate BranchMatchesAt(alt: seq<Atom>, t: string, p: nat) {
    p + |alt| <= |t| && Matches(alt, t[p..p + |alt|]) && IsBoundary(t, p + |alt|)
  }

  /** Ordered alternation with backtracking into the next branch: the index of
      the first branch, from k on, that matches at p and is followed by `\b`. */
  function FirstBranch(alts: seq<seq<Atom>>, t: string, p: nat, k: nat): (r: Option<nat>)
    requires k <= |alts|
    ensures r.Some? ==> k <= r.value < |alts| && p + |alts[r.value]| <= |t|
    decreases |alts| - k
  {
    if k == |alts| then None
    else if BranchMatchesAt(alts[k], t, p) then Some(k)
    else FirstBranch(alts, t, p, k + 1)
  }

  /** The branch FirstBranch picks matches at p followed by `\b`, and no branch
      tried before it does; None means that no branch from k on does. */
  lemma {:induction false} FirstBranchChoice(alts: seq<seq<Atom>>, t: string, p: nat, k: nat)
    requires k <= |alts|
    ensures var r := FirstBranch(alts, t, p, k);
              (r.Some? ==> BranchMatchesAt(alts[r.value], t, p)) &&
              forall j :: k <= j < |alts| && (r.None? || j < r.value) ==> !BranchMatchesAt(alts[j], t, p)
    decreases |alts| - k
  {
    if k < |alts| && !BranchMatchesAt(alts[k], t, p) {
      FirstBranchChoice(alts, t, p, k + 1);
    }
  }

  /** The length of the match of the whole expression that starts exactly at p,
      or None when the expression does not match there. */
  function MatchAt(t: string, p: nat): (r: Option<nat>)
    requires p <= |t|
    ensures r.Some? ==> (r.value == 14 || r.value == 11) && p + r.value <= |t|
  {
    if !IsBoundary(t, p) then None
    else
      match FirstBranch(CpfBranches, t, p, 0)
      case Some(k) => Some(|CpfBranches[k]|)
      case None => None
  }

  // ---------------------------------------------------------------------------
  // finditer
  // ---------------------------------------------------------------------------

  /** One match object: its span in the page text and `match.group()`. */
  datatype Match = Match(start: nat, end: nat, text: string)

  /** The scan `finditer` performs from offset p: try the expression at p; on a
      match report it and resume at its end, otherwise move on by one. Every match
      takes at least eleven characters of its own. */
  function ScanFrom(t: string, p: nat): (r: seq<Match>)
    requires p <= |t|
    ensures 11 * |r| <= |t| - p
    decreases |t| - p
  {
    match MatchAt(t, p)
    case Some(n) => [Match(p, p + n, t[p..p + n])] + ScanFrom(t, p + n)
    case None => if p == |t| then [] else ScanFrom(t, p + 1)
  }

  /** Each of ms lies at or after p, its text is the slice it spans, and the
      expression matches at its start with its length. */
  predicate PlacedFrom(t: string, p: nat, ms: seq<Match>) {
    forall i :: 0 <= i < |ms| ==>
      p <= ms[i].start < ms[i].end <= |t| && ms[i].text == t[ms[i].start..ms[i].end] &&
      MatchAt(t, ms[i].start) == Some(ms[i].end - ms[i].start)
  }

  /** Each of ms ends at or before the next one starts. */
  predicate InOrder(ms: seq<Match>) {
    forall i, j :: 0 <= i < j < |ms| ==> ms[i].end <= ms[j].start
  }

  /** A match the expression makes at or after p, put before matches placed
      from its end, gives matches placed from p. */
  lemma PlacedPrepend(t: string, p: nat, m: Match, rest: seq<Match>)
    requires p <= m.start < m.end <= |t| && m.text == t[m.start..m.end]
    requires MatchAt(t, m.start) == Some(m.end - m.start)
    requires PlacedFrom(t, m.end, rest)
    ensures PlacedFrom(t, p, [m] + rest)
  {
    var r := [m] + rest;
    forall i | 0 < i < |r| ensures r[i] == rest[i - 1] { }
  }

  /** A match that ends at or before every match of an ordered sequence starts,
      put before it, keeps it ordered. */
  lemma OrderedPrepend(m: Match, rest: seq<Match>)
    requires InOrder(rest)
    requires forall i :: 0 <= i < |rest| ==> m.end <= rest[i].start
    ensures InOrder([m] + rest)
  {
    var r := [m] + rest;
    forall i, j | 0 <= i < j < |r| ensures r[i].end <= r[j].start {
      assert r[j] == rest[j - 1];
      if 0 < i {
        assert r[i] == rest[i - 1];
      }
    }
  }

  /** Every match the scan from p reports is one the expression makes at or after p. */
  lemma {:induction false} ScanFromMatches(t: string, p: nat)
    requires p <= |t|
    ensures PlacedFrom(t, p, ScanFrom(t, p))
    decreases |t| - p
  {
    match MatchAt(t, p)
    case Some(n) =>
      ScanFromMatches(t, p + n);
      PlacedPrepend(t, p, Match(p, p + n, t[p..p + n]), ScanFrom(t, p + n));
    case None =>
      if p < |t| {
        ScanFromMatches(t, p + 1);
      }
  }

  /** The scan from p reports its matches in order, none overlapping the next. */
  lemma {:induction false} ScanFromOrdered(t: string, p: nat)
    requires p <= |t|
    ensures InOrder(ScanFrom(t, p))
    decreases |t| - p
  {
    match MatchAt(t, p)
    case Some(n) =>
      var rest := ScanFrom(t, p + n);
      ScanFromOrdered(t, p + n);
      ScanFromMatches(t, p + n);
      OrderedPrepend(Match(p, p + n, t[p..p + n]), rest);
    case None =>
      if p < |t| {
        ScanFromOrdered(t, p + 1);
      }
  }

  /** The matches of `finditer` come in strictly increasing, non-overlapping order;
      each one's text is the slice it spans, and the expression matches at its
      start with its length. */
  lemma FindIterInOrder(t: string)
    ensures var ms := FindIter(t);
              (forall i :: 0 <= i < |ms| ==>
                ms[i].start < ms[i].end <= |t| && ms[i].text == t[ms[i].start..ms[i].end] &&
                MatchAt(t, ms[i].start) == Some(ms[i].end - ms[i].start)) &&
              (forall i, j :: 0 <= i < j < |ms| ==> ms[i].end <= ms[j].start)
  {
    assert FindIter(t) == ScanFrom(t, 0);
    ScanFromMatches(t, 0);
    ScanFromOrdered(t, 0);
  }

  /** `cpf_regex.finditer(text)`: each match takes at least eleven characters
      of its own. */
  function FindIter(t: string): (r: seq<Match>)
    ensures 11 * |r| <= |t|
  {
    ScanFrom(t, 0)
  }

  // ---------------------------------------------------------------------------
  // What the expression accepts, by index
  // ---------------------------------------------------------------------------

  predicate AllDigits(s: string) {
    forall i :: 0 <= i < |s| ==> IsDigit(s[i])
  }

  /** Eleven digits and nothing else. */
  predicate IsPlainCpf(s: string) {
    |s| == 11 && AllDigits(s)
  }

  /** The form ddd.ddd.ddd-dd: '.' at indices 3 and 7, '-' at 11, digits elsewhere. */
  predicate IsFormattedCpf(s: string) {
    |s| == 14 && s[3] == '.' && s[7] == '.' && s[11] == '-' &&
    AllDigits(s[..3]) && AllDigits(s[4..7]) && AllDigits(s[8..11]) && AllDigits(s[12..])
  }

  /** No word character immediately before offset p. */
  predicate NoWordBefore(t: string, p: nat)
    requires p <= |t|
  {
    p == 0 || !IsWordChar(t[p - 1])
  }

  /** No word character at offset e. */
  predicate NoWordAt(t: string, e: nat)
    requires e <= |t|
  {
    e == |t| || !IsWordChar(t[e])
  }

  predicate FormattedCpfAt(t: string, p: nat)
    requires p <= |t|
  {
    NoWordBefore(t, p) && p + 14 <= |t| && IsFormattedCpf(t[p..p + 14]) && NoWordAt(t, p + 14)
  }

  predicate PlainCpfAt(t: string, p: nat)
    requires p <= |t|
  {
    NoWordBefore(t, p) && p + 11 <= |t| && IsPlainCpf(t[p..p + 11]) && NoWordAt(t, p + 11)
  }

  // ---------------------------------------------------------------------------
  // The structural and the index-level descriptions agree
  // ---------------------------------------------------------------------------

  lemma {:induction false} MatchesPointwise(pat: seq<Atom>, s: string)
    ensures Matches(pat, s) <==> |s| == |pat| && forall i :: 0 <= i < |s| ==> AtomMatches(pat[i], s[i])
    decreases |pat|
  {
    if pat != [] && s != [] {
      MatchesPointwise(pat[1..], s[1..]);
      if AtomMatches(pat[0], s[0]) && Matches(pat[1..], s[1..]) {
        forall i | 0 <= i < |s| ensures AtomMatches(pat[i], s[i]) {
          if i > 0 {
            assert pat[1..][i - 1] == pat[i] && s[1..][i - 1] == s[i];
          }
        }
      }
      if |s| == |pat| && forall i :: 0 <= i < |s| ==> AtomMatches(pat[i], s[i]) {
        forall i | 0 <= i < |s| - 1 ensures AtomMatches(pat[1..][i], s[1..][i]) {
          assert AtomMatches(pat[i + 1], s[i + 1]);
        }
      }
    }
  }

  lemma FormattedBranchAt(i: nat)
    requires i < 14
    ensures |FormattedBranch| == 14
    ensures FormattedBranch[i] == if i == 3 || i == 7 then Lit('.') else if i == 11 then Lit('-') else Digit
  {
    var d3 := Rep(Digit, 3);
    assert FormattedBranch == d3 + [Lit('.')] + d3 + [Lit('.')] + d3 + [Lit('-')] + Rep(Digit, 2);
  }

  lemma FormattedBranchAccepts(s: string)
    ensures Matches(FormattedBranch, s) <==> IsFormattedCpf(s)
  {
    MatchesPointwise(FormattedBranch, s);
    FormattedBranchAt(0);
    if |s| == 14 {
      forall i | 0 <= i < 14 {
        FormattedBranchAt(i);
      }
      if IsFormattedCpf(s) {
        forall i | 0 <= i < 14 ensures AtomMatches(FormattedBranch[i], s[i]) {
          if i < 3 { assert s[..3][i] == s[i]; }
          else if 3 < i < 7 { assert s[4..7][i - 4] == s[i]; }
          else if 7 < i < 11 { assert s[8..11][i - 8] == s[i]; }
          else if 11 < i { assert s[12..][i - 12] == s[i]; }
        }
      }
    }
  }

  lemma PlainBranchAccepts(s: string)
    ensures Matches(PlainBranch, s) <==> IsPlainCpf(s)
  {
    MatchesPointwise(PlainBranch, s);
  }

  /** Whatever starts with a digit has `\b` before it exactly when no word character precedes it. */
  lemma OpeningBoundary(t: string, p: nat)
    requires p < |t| && IsDigit(t[p])
    ensures IsBoundary(t, p) <==> NoWordBefore(t, p)
  {
  }

  /** Whatever ends with a digit has `\b` after it exactly when no word character follows it. */
  lemma ClosingBoundary(t: string, e: nat)
    requires 0 < e <= |t| && IsDigit(t[e - 1])
    ensures IsBoundary(t, e) <==> NoWordAt(t, e)
  {
  }

  /** The attempt at p, branch by branch: `\b`, then the formatted branch, then the
      plain one, each followed by `\b`. */
  lemma MatchAtByBranch(t: string, p: nat)
    requires p <= |t|
    ensures MatchAt(t, p) ==
              if !IsBoundary(t, p) then None
              else if BranchMatchesAt(FormattedBranch, t, p) then Some(14)
              else if BranchMatchesAt(PlainBranch, t, p) then Some(11)
              else None
  {
    FirstBranchChoice(CpfBranches, t, p, 0);
    assert |FormattedBranch| == 14 && |PlainBranch| == 11;
    assert CpfBranches[0] == FormattedBranch && CpfBranches[1] == PlainBranch;
    assert FirstBranch(CpfBranches, t, p, 2) == None;
  }

  /** The formatted branch, with `\b` on both sides, matches at p exactly when a
      formatted CPF stands there with no word character on either side. */
  lemma FormattedBranchAtCharacterised(t: string, p: nat)
    requires p <= |t|
    ensures IsBoundary(t, p) && BranchMatchesAt(FormattedBranch, t, p) <==> FormattedCpfAt(t, p)
  {
    FormattedBranchAt(0);
    if p + 14 <= |t| {
      FormattedBranchAccepts(t[p..p + 14]);
      if IsFormattedCpf(t[p..p + 14]) {
        assert t[p..p + 14][..3][0] == t[p] && t[p..p + 14][12..][1] == t[p + 13];
        OpeningBoundary(t, p);
        ClosingBoundary(t, p + 14);
      }
    }
  }

  /** The plain branch, with `\b` on both sides, matches at p exactly when eleven
      digits stand there with no word character on either side. */
  lemma PlainBranchAtCharacterised(t: string, p: nat)
    requires p <= |t|
    ensures IsBoundary(t, p) && BranchMatchesAt(PlainBranch, t, p) <==> PlainCpfAt(t, p)
  {
    assert |PlainBranch| == 11;
    if p + 11 <= |t| {
      PlainBranchAccepts(t[p..p + 11]);
      if IsPlainCpf(t[p..p + 11]) {
        assert t[p..p + 11][0] == t[p] && t[p..p + 11][10] == t[p + 10];
        OpeningBoundary(t, p);
        ClosingBoundary(t, p + 11);
      }
    }
  }

  /** No offset holds both forms: the formatted one has '.' where the plain one has a digit. */
  lemma FormattedNotPlain(t: string, p: nat)
    requires p <= |t|
    ensures FormattedCpfAt(t, p) ==> !PlainCpfAt(t, p)
  {
    if FormattedCpfAt(t, p) {
      assert t[p..p + 14][3] == t[p + 3] == t[p..p + 11][3];
      assert !IsDigit(t[p..p + 11][3]);
    }
  }

  /** The regex matches at p as the 14-character formatted CPF exactly when the text
      has that form there with no word character on either side; as the 11-digit
      CPF exactly when it has eleven digits there the same way; and nowhere else. */
  lemma MatchAtCharacterised(t: string, p: nat)
    requires p <= |t|
    ensures MatchAt(t, p) == Some(14) <==> FormattedCpfAt(t, p)
    ensures MatchAt(t, p) == Some(11) <==> PlainCpfAt(t, p)
    ensures MatchAt(t, p) == None <==> !FormattedCpfAt(t, p) && !PlainCpfAt(t, p)
  {
    MatchAtByBranch(t, p);
    FormattedBranchAtCharacterised(t, p);
    PlainBranchAtCharacterised(t, p);
    FormattedNotPlain(t, p);
  }

  // ---------------------------------------------------------------------------
  // Properties of the scan
  // ---------------------------------------------------------------------------

  /** Every match returned by finditer is exactly eleven digits or the formatted form,
      is the text slice it spans, has no word character immediately before or after
      it, and is therefore 11 or 14 characters long. */
  lemma FindIterShape(t: string)
    ensures forall i :: 0 <= i < |FindIter(t)| ==>
              var m := FindIter(t)[i];
              m.start < m.end <= |t| && m.text == t[m.start..m.end] &&
              (IsPlainCpf(m.text) || IsFormattedCpf(m.text)) &&
              (|m.text| == 11 || |m.text| == 14) &&
              NoWordBefore(t, m.start) && NoWordAt(t, m.end)
  {
    var ms := FindIter(t);
    FindIterInOrder(t);
    forall i | 0 <= i < |ms|
      ensures IsPlainCpf(ms[i].text) || IsFormattedCpf(ms[i].text)
      ensures NoWordBefore(t, ms[i].start) && NoWordAt(t, ms[i].end)
    {
      MatchAtCharacterised(t, ms[i].start);
    }
  }

  /** Which characters of a recognised CPF are digits. */
  lemma CpfCharAt(s: string, i: nat)
    requires (IsPlainCpf(s) || IsFormattedCpf(s)) && i < |s|
    ensures IsDigit(s[i]) <==> !IsFormattedCpf(s) || (i != 3 && i != 7 && i != 11)
  {
    if IsFormattedCpf(s) {
      if i < 3 { assert s[..3][i] == s[i]; }
      else if 3 < i < 7 { assert s[4..7][i - 4] == s[i]; }
      else if 7 < i < 11 { assert s[8..11][i - 8] == s[i]; }
      else if 11 < i { assert s[12..][i - 12] == s[i]; }
    }
  }

  /** Character c may stand at index j of the form ddd.ddd.ddd-dd. */
  predicate FitsFormattedAt(c: char, j: nat) {
    if j == 3 || j == 7 then c == '.' else if j == 11 then c == '-' else IsDigit(c)
  }

  lemma FormattedCharAt(s: string, j: nat)
    requires |s| == 14 && j < 14
    ensures IsFormattedCpf(s) ==> FitsFormattedAt(s[j], j)
  {
    if IsFormattedCpf(s) {
      CpfCharAt(s, j);
    }
  }

  /** The regex does not match at q when the text there has a non-digit at index i
      of the 11-digit form and a misfit at index j of the formatted form. */
  lemma NoCpfAt(t: string, q: nat, i: nat, j: nat)
    requires q <= |t|
    requires q + 11 <= |t| ==> i < 11 && !IsDigit(t[q + i])
    requires q + 14 <= |t| ==> j < 14 && !FitsFormattedAt(t[q + j], j)
    ensures MatchAt(t, q) == None
  {
    MatchAtCharacterised(t, q);
    if q + 11 <= |t| {
      assert t[q..q + 11][i] == t[q + i];
    }
    if q + 14 <= |t| {
      assert t[q..q + 14][j] == t[q + j];
      FormattedCharAt(t[q..q + 14], j);
    }
  }

  /** The regex does not match right after a word character. */
  lemma NoCpfAfterWordChar(t: string, q: nat)
    requires 0 < q <= |t| && IsWordChar(t[q - 1])
    ensures MatchAt(t, q) == None
  {
    MatchAtCharacterised(t, q);
  }

  /** Two places where the regex matches never overlap: no match starts strictly
      inside another. */
  lemma CandidatesDoNotOverlap(t: string, p: nat, q: nat)
    requires p < q <= |t| && MatchAt(t, p).Some? && q < p + MatchAt(t, p).value
    ensures MatchAt(t, q) == None
  {
    MatchAtCharacterised(t, p);
    var n := MatchAt(t, p).value;
    var s := t[p..p + n];
    var o := q - 1 - p;
    assert IsPlainCpf(s) || IsFormattedCpf(s);
    CpfCharAt(s, o);
    assert t[q - 1] == s[o];
    if n == 11 || (o != 3 && o != 7 && o != 11) {
      // q is preceded by a digit of the match at p
      NoCpfAfterWordChar(t, q);
    } else if o == 3 {
      assert t[q + 3] == s[7] && t[q + 7] == s[11];
      NoCpfAt(t, q, 3, 7);
    } else if o == 7 {
      assert t[q + 3] == s[11];
      NoCpfAt(t, q, 3, 3);
    } else if q + 2 < |t| {
      // q is two characters before the closing boundary of the match at p
      assert NoWordAt(t, p + 14);
      NoCpfAt(t, q, 2, 2);
    } else {
      NoCpfAt(t, q, 0, 0);
    }
  }

  /** finditer misses nothing: every offset from p on where the regex matches is the
      start of one of the matches the scan from p reports. */
  lemma {:induction false} ScanFromComplete(t: string, p: nat, q: nat)
    requires p <= q <= |t| && MatchAt(t, q).Some?
    ensures exists i :: 0 <= i < |ScanFrom(t, p)| && ScanFrom(t, p)[i].start == q
    decreases |t| - p
  {
    if MatchAt(t, p).None? {
      assert p < q;
      assert ScanFrom(t, p) == ScanFrom(t, p + 1);
      ScanFromComplete(t, p + 1, q);
    } else if q == p {
      assert ScanFrom(t, p)[0].start == q;
    } else {
      var n := MatchAt(t, p).value;
      if q < p + n {
        CandidatesDoNotOverlap(t, p, q);
        assert false;
      }
      ScanFromComplete(t, p + n, q);
      ScanFromResumes(t, p, n, p + n, q);
    }
  }

  /** After a match at p the scan goes on from the match's end, so the matches of
      the rest are matches of the whole. */
  lemma ScanFromResumes(t: string, p: nat, n: nat, e: nat, q: nat)
    requires p <= |t| && MatchAt(t, p) == Some(n) && e == p + n <= q <= |t|
    requires exists i :: 0 <= i < |ScanFrom(t, e)| && ScanFrom(t, e)[i].start == q
    ensures exists i :: 0 <= i < |ScanFrom(t, p)| && ScanFrom(t, p)[i].start == q
  {
    var rest := ScanFrom(t, e);
    var i :| 0 <= i < |rest| && rest[i].start == q;
    assert ScanFrom(t, p) == [Match(p, p + n, t[p..p + n])] + rest;
    assert ScanFrom(t, p)[i + 1] == rest[i];
  }

  /** The matches finditer reports start exactly at the offsets where the regex matches. */
  lemma FindIterExactlyTheMatches(t: string, q: nat)
    requires q <= |t|
    ensures (exists i :: 0 <= i < |FindIter(t)| && FindIter(t)[i].start == q) <==> MatchAt(t, q).Some?
  {
    var ms := FindIter(t);
    assert ms == ScanFrom(t, 0);
    FindIterInOrder(t);
    if MatchAt(t, q).Some? {
      ScanFromComplete(t, 0, q);
    }
    if i :| 0 <= i < |ms| && ms[i].start == q {
      assert MatchAt(t, ms[i].start).Some?;
    }
  }

  /** The regex never matches so as to touch a run of twelve or more digits: a
      successful attempt ends strictly before the run or starts strictly after it. */
  lemma NoCandidateTouchesLongDigitRun(t: string, a: nat, b: nat, p: nat)
    requires a + 12 <= b <= |t| && AllDigits(t[a..b]) && p <= |t|
    ensures MatchAt(t, p).Some? ==> p + MatchAt(t, p).value < a || b < p
  {
    if a < p <= b {
      // a digit of the run comes right before p
      assert t[p - 1] == t[a..b][p - 1 - a];
      assert !NoWordBefore(t, p);
    } else if p <= a <= p + 14 && p + 14 <= |t| {
      if a <= p + 3 {
        // the run covers the first '.' of the formatted form
        assert t[p + 3] == t[a..b][p + 3 - a] == t[p..p + 14][3];
      } else {
        // the run goes on past the end of the formatted form
        assert t[p + 14] == t[a..b][p + 14 - a];
        assert !NoWordAt(t, p + 14);
      }
    }
    if p <= a <= p + 11 {
      // the run goes on past the end of eleven digits
      assert t[p + 11] == t[a..b][p + 11 - a];
      assert !NoWordAt(t, p + 11);
    }
    MatchAtCharacterised(t, p);
  }

  /** An unbroken run of twelve or more digits yields no match at any offset: every
      match finditer reports ends strictly before it or starts strictly after it. */
  lemma FindIterSkipsLongDigitRuns(t: string, a: nat, b: nat)
    requires a + 12 <= b <= |t| && AllDigits(t[a..b])
    ensures forall i :: 0 <= i < |FindIter(t)| ==> FindIter(t)[i].end < a || b < FindIter(t)[i].start
  {
    var ms := FindIter(t);
    FindIterInOrder(t);
    forall i | 0 <= i < |ms| ensures ms[i].end < a || b < ms[i].start {
      NoCandidateTouchesLongDigitRun(t, a, b, ms[i].start);
    }
  }

  // ---------------------------------------------------------------------------
  // The digits of a match
  // ---------------------------------------------------------------------------

  /** The digits of s, in order, separators dropped. */
  function Digits(s: string): (r: string)
    ensures AllDigits(r) && |r| <= |s|
  {
    if s == [] then [] else (if IsDigit(s[0]) then [s[0]] else []) + Digits(s[1..])
  }

  lemma {:induction false} DigitsConcat(a: string, b: string)
    ensures Digits(a + b) == Digits(a) + Digits(b)
    decreases |a|
  {
    if a != [] {
      assert (a + b)[0] == a[0] && (a + b)[1..] == a[1..] + b;
      DigitsConcat(a[1..], b);
    } else {
      assert a + b == b;
    }
  }

  lemma {:induction false} DigitsOfDigits(s: string)
    requires AllDigits(s)
    ensures Digits(s) == s
    decreases |s|
  {
    if s != [] {
      DigitsOfDigits(s[1..]);
    }
  }

  /** The part of a formatted CPF between its first three and last two digits
      holds, once the separators are dropped, digits 4-6 and 7-9. */
  lemma FormattedMiddleDigits(s: string)
    requires IsFormattedCpf(s)
    ensures Digits(s[3..12]) == s[4..7] + s[8..11]
  {
    var d1, d2 := s[4..7], s[8..11];
    assert s[3..12] == [s[3]] + d1 + [s[7]] + d2 + [s[11]];
    DigitsConcat([s[3]] + d1 + [s[7]] + d2, [s[11]]);
    DigitsConcat([s[3]] + d1 + [s[7]], d2);
    DigitsConcat([s[3]] + d1, [s[7]]);
    DigitsConcat([s[3]], d1);
    DigitsOfDigits(d1);
    DigitsOfDigits(d2);
  }

  /** The first three and last two characters of a recognised CPF are digits,
      and six digits lie between them. */
  lemma CpfParts(s: string)
    requires IsPlainCpf(s) || IsFormattedCpf(s)
    ensures AllDigits(s[..3]) && AllDigits(s[|s| - 2..]) && |Digits(s[3..|s| - 2])| == 6
  {
    if IsPlainCpf(s) {
      DigitsOfDigits(s[3..|s| - 2]);
    } else {
      FormattedMiddleDigits(s);
    }
  }

  /** A recognised CPF carries eleven digits whatever its separators. Its first three
      characters are its first three digits, its last two characters its last two
      digits, and what lies between holds the six middle digits. */
  lemma CpfDigitLayout(s: string)
    requires IsPlainCpf(s) || IsFormattedCpf(s)
    ensures |Digits(s)| == 11
    ensures Digits(s[..3]) == s[..3] == Digits(s)[..3]
    ensures Digits(s[|s| - 2..]) == s[|s| - 2..] == Digits(s)[9..]
    ensures Digits(s[3..|s| - 2]) == Digits(s)[3..9]
  {
    var head, mid, tail := s[..3], s[3..|s| - 2], s[|s| - 2..];
    assert s == head + mid + tail;
    DigitsConcat(head + mid, tail);
    DigitsConcat(head, mid);
    CpfParts(s);
    DigitsOfDigits(head);
    DigitsOfDigits(tail);
  }
}
