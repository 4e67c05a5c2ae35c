/** The count patcher: the two rewrites of a row's players cell. Annotate mode inserts
    the corrected count before the first " / "; replace mode applies the multiline
    pattern `^.*(?=( \/ ))`, which on the first line holding a " / " replaces
    everything up to the last " / " of that line. */
module CountPatch {
  import opened Text

  /** The delimiter between the displayed count and the maximum. */
  const DELIM: string := " / "

  predicate DelimAt(s: string, i: nat) {
    OccursAt(s, DELIM, i)
  }

  /** A delimiter starts with a space inside the text. */
  lemma DelimStartsWithSpace(s: string, i: nat)
    requires DelimAt(s, i)
    ensures i + 3 <= |s| && s[i] == ' ' && s[i + 1] == '/' && s[i + 2] == ' '
  {
    assert s[i..i + 3][0] == s[i] && s[i..i + 3][1] == s[i + 1] && s[i..i + 3][2] == s[i + 2];
  }

  /** `<b>[n]</b>`, the bracketed corrected count. */
  function Bracket(n: nat): string {
    "<b>[" + Decimal(n) + "]</b>"
  }

  /** The text replace mode puts in front of the delimiter. */
  function ReplacementHead(n: nat): string {
    "\n <span>" + Bracket(n)
  }

  /** `i` is the first delimiter of `s`. */
  ghost predicate FirstDelim(s: string, i: nat) {
    DelimAt(s, i) && forall k: nat :: k < i ==> !DelimAt(s, k)
  }

  /** Annotate mode: `cell.replace(/ \/ /, " <b>[n]</b> / ")`. The result is the cell
      with " <b>[n]</b>" inserted before its first delimiter and nothing else changed. */
  function Annotate(cell: string, n: nat): (r: string)
    ensures !Contains(cell, DELIM) ==> r == cell
    ensures forall i: nat :: FirstDelim(cell, i) ==> r == cell[..i] + " " + Bracket(n) + cell[i..]
  {
    match IndexOf(cell, DELIM)
    case None => cell
    case Some(i) =>
      assert cell[i..] == DELIM + cell[i + 3..];
      assert forall i': nat :: FirstDelim(cell, i') ==> i' == i by {
        forall i': nat | FirstDelim(cell, i') ensures i' == i {
          assert DelimAt(cell, i);
        }
      }
      cell[..i] + " " + Bracket(n) + " / " + cell[i + 3..]
  }

  /** A JavaScript line terminator: what `.` does not match and what `^` follows in
      multiline mode. */
  predicate IsLineTerminator(c: char) {
    c == '\n' || c == '\r' || c == '\U{2028}' || c == '\U{2029}'
  }

  /** Where `^` matches in multiline mode. */
  predicate LineStart(s: string, p: nat) {
    p <= |s| && (p == 0 || IsLineTerminator(s[p - 1]))
  }

  /** The end of the line from `p`: as far as `.*` can reach. */
  function LineEnd(s: string, p: nat): (e: nat)
    requires p <= |s|
    ensures p <= e <= |s|
    ensures e < |s| ==> IsLineTerminator(s[e])
    ensures forall k :: p <= k < e ==> !IsLineTerminator(s[k])
    decreases |s| - p
  {
    if p == |s| || IsLineTerminator(s[p]) then p else LineEnd(s, p + 1)
  }

  /** Greedy `.*` from `p` first takes everything up to `j`, then gives back one
      character at a time until the lookahead ` / ` succeeds. */
  function Backtrack(s: string, p: nat, j: nat): (q: Option<nat>)
    requires p <= j
    ensures q.Some? ==> p <= q.value <= j && DelimAt(s, q.value)
    ensures q.Some? ==> forall k: nat :: q.value < k <= j ==> !DelimAt(s, k)
    ensures q.None? ==> forall k: nat :: p <= k <= j ==> !DelimAt(s, k)
    decreases j - p
  {
    if DelimAt(s, j) then Some(j)
    else if j == p then None
    else Backtrack(s, p, j - 1)
  }

  /** The match replace mode rewrites: `p` starts the first line that holds a
      delimiter and `q` is the last delimiter on that line. */
  ghost predicate ReplaceSpan(s: string, p: nat, q: nat) {
    LineStart(s, p) && p <= q < LineEnd(s, p) && DelimAt(s, q)
    && (forall k: nat :: k < p ==> !DelimAt(s, k))
    && (forall k: nat :: q < k < LineEnd(s, p) ==> !DelimAt(s, k))
  }

  /** The search of `/^.*(?=( \/ ))/m` from start position `p`: every position is
      tried in turn, `^` rejects the ones that do not start a line, and at a line start
      the greedy `.*` backtracks from the end of the line. The match is the pair
      (start, end). */
  function Search(s: string, p: nat): (m: Option<(nat, nat)>)
    requires forall k: nat :: k < p ==> !DelimAt(s, k)
    requires p <= |s| && !LineStart(s, p) ==> forall k: nat :: p <= k <= LineEnd(s, p) ==> !DelimAt(s, k)
    ensures m.None? ==> forall k: nat :: !DelimAt(s, k)
    ensures m.Some? ==> ReplaceSpan(s, m.value.0, m.value.1)
    decreases |s| + 1 - p
  {
    if p > |s| then None
    else if LineStart(s, p) then
      var e := LineEnd(s, p);
      match Backtrack(s, p, e)
      case Some(q) =>
        DelimStartsWithSpace(s, q);
        Some((p, q))
      case None =>
        assert p + 1 <= |s| && !LineStart(s, p + 1) ==> LineEnd(s, p + 1) == e;
        Search(s, p + 1)
    else
      assert p + 1 <= |s| && !LineStart(s, p + 1) ==> LineEnd(s, p + 1) == LineEnd(s, p);
      Search(s, p + 1)
  }

  /** The line start and the delimiter of a replace-mode match are determined by the text. */
  lemma ReplaceSpanUnique(s: string, p: nat, q: nat, p': nat, q': nat)
    requires ReplaceSpan(s, p, q) && ReplaceSpan(s, p', q')
    ensures p == p' && q == q'
  {
  }

  /** Replace mode: `cell.replace(/^.*(?=( \/ ))/m, "\n <span><b>[n]</b>")`. On the
      first line holding a delimiter, everything from the start of the line up to the
      last delimiter of that line is replaced; earlier lines, the delimiter and all that
      follows it are kept. Without a delimiter the cell is returned unchanged. */
  function Replace(cell: string, n: nat): (r: string)
    ensures !Contains(cell, DELIM) ==> r == cell
    ensures Contains(cell, DELIM) ==> exists p: nat, q: nat :: ReplaceSpan(cell, p, q)
    ensures forall p: nat, q: nat :: ReplaceSpan(cell, p, q) ==>
      r == cell[..p] + ReplacementHead(n) + cell[q..]
  {
    match Search(cell, 0)
    case None =>
      assert forall k: nat :: !OccursAt(cell, DELIM, k) by {
        forall k: nat ensures !OccursAt(cell, DELIM, k) {
          assert !DelimAt(cell, k);
        }
      }
      cell
    case Some((p, q)) =>
      assert Contains(cell, DELIM) by {
        assert OccursAt(cell, DELIM, q);
      }
      assert forall p': nat, q': nat :: ReplaceSpan(cell, p', q') ==> p' == p && q' == q by {
        forall p': nat, q': nat | ReplaceSpan(cell, p', q') ensures p' == p && q' == q {
          ReplaceSpanUnique(cell, p, q, p', q');
        }
      }
      cell[..p] + ReplacementHead(n) + cell[q..]
  }

  /** Replace mode always changes a cell that holds a delimiter: the replacement starts
      with a line break where the cell had none. */
  lemma ReplaceChangesCell(cell: string, n: nat)
    requires Contains(cell, DELIM)
    ensures Replace(cell, n) != cell
  {
    var r := Replace(cell, n);
    var p: nat, q: nat :| ReplaceSpan(cell, p, q);
    assert r == cell[..p] + ReplacementHead(n) + cell[q..];
    assert r[p] == '\n';
    assert !IsLineTerminator(cell[p]);
  }

  /** Annotate mode always changes a cell that holds a delimiter: it grows. */
  lemma AnnotateChangesCell(cell: string, n: nat)
    requires Contains(cell, DELIM)
    ensures |Annotate(cell, n)| > |cell|
  {
    var i := IndexOf(cell, DELIM).value;
    assert FirstDelim(cell, i);
  }

  /** The rewrite a response applies: replace mode when `only.real.players` is exactly
      1, annotate mode otherwise. A cell without the delimiter is left as it is; a cell
      with one always changes. */
  function PatchCell(cell: string, n: nat, onlyRealPlayers: int): (r: string)
    ensures !Contains(cell, DELIM) ==> r == cell
    ensures Contains(cell, DELIM) ==> r != cell
  {
    if onlyRealPlayers == 1 then
      if Contains(cell, DELIM) then ReplaceChangesCell(cell, n); Replace(cell, n)
      else Replace(cell, n)
    else
      if Contains(cell, DELIM) then AnnotateChangesCell(cell, n); Annotate(cell, n)
      else Annotate(cell, n)
  }

  /** A text whose only slash sits at `f + 1` holds at most one delimiter, at `f`. */
  lemma OnlyDelim(s: string, f: nat)
    requires forall k :: 0 <= k < |s| && s[k] == '/' ==> k == f + 1
    ensures forall k: nat :: DelimAt(s, k) ==> k == f
  {
    forall k: nat | DelimAt(s, k) ensures k == f {
      DelimStartsWithSpace(s, k);
    }
  }

  /** The characters of "fake / max" with plain `fake` and `max`. */
  lemma PlainCellChars(fake: string, max: string)
    requires forall k :: 0 <= k < |fake| ==> fake[k] != '/' && !IsLineTerminator(fake[k])
    requires forall k :: 0 <= k < |max| ==> max[k] != '/' && !IsLineTerminator(max[k])
    ensures var s := fake + DELIM + max;
      forall k :: 0 <= k < |s| ==> !IsLineTerminator(s[k]) && (s[k] == '/' ==> k == |fake| + 1)
  {
    var s := fake + DELIM + max;
    var f := |fake|;
    forall k | 0 <= k < |s| ensures !IsLineTerminator(s[k]) && (s[k] == '/' ==> k == f + 1) {
      if k < f {
        assert s[k] == fake[k];
      } else if k >= f + 3 {
        assert s[k] == max[k - f - 3];
      }
    }
  }

  /** In a one-line text whose only slash is that of a delimiter at `f`, replace mode
      rewrites from the start of the text to `f`. */
  lemma OneLineSpan(s: string, f: nat)
    requires DelimAt(s, f)
    requires forall k :: 0 <= k < |s| ==> !IsLineTerminator(s[k]) && (s[k] == '/' ==> k == f + 1)
    ensures ReplaceSpan(s, 0, f)
  {
    assert LineEnd(s, 0) == |s|;
    OnlyDelim(s, f);
  }

  /** A plain cell "fake / max" (no slash and no line break on either side): replace
      mode shows the corrected count followed by " / max". */
  lemma ReplaceSimpleCell(fake: string, max: string, n: nat)
    requires forall k :: 0 <= k < |fake| ==> fake[k] != '/' && !IsLineTerminator(fake[k])
    requires forall k :: 0 <= k < |max| ==> max[k] != '/' && !IsLineTerminator(max[k])
    ensures Replace(fake + DELIM + max, n) == ReplacementHead(n) + DELIM + max
  {
    var s := fake + DELIM + max;
    var f := |fake|;
    assert s[f..f + 3] == DELIM;
    PlainCellChars(fake, max);
    OneLineSpan(s, f);
    assert s[..0] == [] && s[f..] == DELIM + max;
  }

  /** A plain cell "fake / max" with no slash in the fake count: annotate mode shows
      "fake <b>[n]</b> / max". */
  lemma AnnotateSimpleCell(fake: string, max: string, n: nat)
    requires forall k :: 0 <= k < |fake| ==> fake[k] != '/'
    ensures Annotate(fake + DELIM + max, n) == fake + " " + Bracket(n) + DELIM + max
  {
    var s := fake + DELIM + max;
    var f := |fake|;
    assert s[f..f + 3] == DELIM;
    forall k: nat | k < f ensures !DelimAt(s, k) {
      if DelimAt(s, k) {
        DelimStartsWithSpace(s, k);
        assert false;
      }
    }
    assert FirstDelim(s, f);
    assert s[..f] == fake && s[f..] == DELIM + max;
  }
}
