/** The placeholder writer of `src/ddWrite.py`: every placeholder in the XML
    lines (a shortest run of characters other than `[` followed by `]]`) is
    replaced, left to right, by the next line of the translated text, or by
    the empty string once that text is used up; a module-wide counter tracks
    how far it has got. */
module DdWrite {
  import opened Wrappers

  // ---------------------------------------------------------------------
  // The placeholder pattern `([^\[]+?)(?=]{2})`
  // ---------------------------------------------------------------------

  /** `]]` starts at position `q` of `s`. */
  predicate ClosesAt(s: string, q: int) {
    0 <= q && q + 1 < |s| && s[q] == ']' && s[q + 1] == ']'
  }

  /** No `[` in `s[a..q]`. */
  predicate NoOpenBracket(s: string, a: int, q: int)
    requires 0 <= a <= q <= |s|
  {
    forall k :: a <= k < q ==> s[k] != '['
  }

  /** The pattern matches `s[a..q]`: at least one character, none of them
      `[`, followed by `]]`, and no shorter such run (the quantifier is lazy). */
  predicate IsMatch(s: string, a: int, q: int) {
    0 <= a < q <= |s| && ClosesAt(s, q) && NoOpenBracket(s, a, q) &&
    forall q' :: a < q' < q ==> !ClosesAt(s, q')
  }

  /** The lazy scan after the first character: stop at the first `]]`, give
      up at a `[` or at the end of the line. */
  function LazyEnd(s: string, q: nat): (e: Option<nat>)
    requires q <= |s|
    ensures e.Some? ==> q <= e.value < |s|
    decreases |s| - q
  {
    if ClosesAt(s, q) then Some(q)
    else if q < |s| && s[q] != '[' then LazyEnd(s, q + 1)
    else None
  }

  /** The end of the match that starts at `a`, if one does. */
  function MatchAt(s: string, a: nat): (e: Option<nat>)
    requires a <= |s|
    ensures e.Some? ==> a < e.value < |s|
  {
    if a < |s| && s[a] != '[' then LazyEnd(s, a + 1) else None
  }

  lemma {:induction false} LazyEndSpec(s: string, a: nat, q: nat, e: int)
    requires a < q <= |s| && NoOpenBracket(s, a, q)
    requires forall q' :: a < q' < q ==> !ClosesAt(s, q')
    ensures LazyEnd(s, q) == Some(e) <==> IsMatch(s, a, e)
    decreases |s| - q
  {
    if ClosesAt(s, q) {
    } else if q < |s| && s[q] != '[' {
      LazyEndSpec(s, a, q + 1, e);
    }
  }

  /** `MatchAt` finds exactly the match the pattern has at `a`. */
  lemma MatchAtSpec(s: string, a: nat, e: int)
    requires a <= |s|
    ensures MatchAt(s, a) == Some(e) <==> IsMatch(s, a, e)
  {
    if a < |s| && s[a] != '[' {
      LazyEndSpec(s, a, a + 1, e);
    }
  }

  /** The leftmost match starting at or after `p`, as (start, end). */
  function NextMatch(s: string, p: nat): (m: Option<(nat, nat)>)
    requires p <= |s|
    ensures m.Some? ==> p <= m.value.0 < m.value.1 < |s|
    decreases |s| - p
  {
    if p == |s| then None
    else match MatchAt(s, p)
      case Some(e) => Some((p, e))
      case None => NextMatch(s, p + 1)
  }

  /** `NextMatch` finds a match, the leftmost one, and finds one whenever there is one. */
  lemma {:induction false} NextMatchSpec(s: string, p: nat)
    requires p <= |s|
    ensures NextMatch(s, p).Some? ==>
      IsMatch(s, NextMatch(s, p).value.0, NextMatch(s, p).value.1) &&
      forall a, e :: p <= a < NextMatch(s, p).value.0 ==> !IsMatch(s, a, e)
    ensures NextMatch(s, p).None? ==> forall a, e :: p <= a ==> !IsMatch(s, a, e)
    decreases |s| - p
  {
    if p < |s| {
      forall e {
        MatchAtSpec(s, p, e);
      }
      if MatchAt(s, p).None? {
        NextMatchSpec(s, p + 1);
      }
    }
  }

  /** `re.search(pattern, line) is not None`. */
  predicate Search(s: string) {
    NextMatch(s, 0).Some?
  }

  /** The search succeeds exactly when the line holds a placeholder. */
  lemma SearchSpec(s: string)
    ensures Search(s) <==> exists a, e :: IsMatch(s, a, e)
  {
    NextMatchSpec(s, 0);
  }

  // ---------------------------------------------------------------------
  // `re.sub` with `backslashToString` as the replacement
  // ---------------------------------------------------------------------

  /** What `backslashToString` returns for counter value `c`. */
  function Replacement(txt: seq<string>, c: nat): string {
    if c < |txt| then txt[c] else ""
  }

  /** The counter after one call of `backslashToString`. */
  function NextCount(txt: seq<string>, c: nat): nat {
    if c < |txt| then c + 1 else c
  }

  /** `re.sub` over `s[p..]`, the counter starting at `c`: the text produced
      and the final counter. */
  function SubFrom(s: string, p: nat, txt: seq<string>, c: nat): (string, nat)
    requires p <= |s|
    decreases |s| - p
  {
    match NextMatch(s, p)
    case None => (s[p..], c)
    case Some((a, e)) =>
      var rest := SubFrom(s, e, txt, NextCount(txt, c));
      (s[p..a] + Replacement(txt, c) + rest.0, rest.1)
  }

  /** One step of `re.sub`: the text before the leftmost match, its
      replacement, then the rest of the line. */
  lemma SubStep(s: string, p: nat, txt: seq<string>, c: nat, a: nat, e: nat)
    requires p <= |s| && NextMatch(s, p) == Some((a, e))
    ensures SubFrom(s, p, txt, c) ==
      (s[p..a] + Replacement(txt, c) + SubFrom(s, e, txt, NextCount(txt, c)).0, SubFrom(s, e, txt, NextCount(txt, c)).1)
  {
  }

  /** Appending the pieces of one step to the text produced so far. */
  lemma Regroup(w: string, x: string, y: string, z: string)
    ensures w + (x + y + z) == w + x + y + z
  {
  }

  function Sub(s: string, txt: seq<string>, c: nat): (string, nat) {
    SubFrom(s, 0, txt, c)
  }

  /** The number of matches in `s[p..]`. */
  function MatchCount(s: string, p: nat): nat
    requires p <= |s|
    decreases |s| - p
  {
    match NextMatch(s, p)
    case None => 0
    case Some((a, e)) => 1 + MatchCount(s, e)
  }

  /** The matched texts of `s[p..]`, in order: the placeholders. */
  function Holes(s: string, p: nat): (h: seq<string>)
    requires p <= |s|
    ensures |h| == MatchCount(s, p)
    decreases |s| - p
  {
    match NextMatch(s, p)
    case None => []
    case Some((a, e)) => [s[a..e]] + Holes(s, e)
  }

  /** Every placeholder is a non-empty text without `[`. */
  lemma {:induction false} HolesShape(s: string, p: nat, k: nat)
    requires p <= |s| && k < |Holes(s, p)|
    ensures Holes(s, p)[k] != "" && '[' !in Holes(s, p)[k]
    decreases |s| - p
  {
    match NextMatch(s, p)
    case Some((a, e)) =>
      if k == 0 {
        NextMatchSpec(s, p);
        assert forall i :: 0 <= i < e - a ==> s[a..e][i] == s[a + i];
      } else {
        HolesShape(s, e, k - 1);
      }
  }

  /** The texts around the matches of `s[p..]`: one more than the holes. */
  function Gaps(s: string, p: nat): (g: seq<string>)
    requires p <= |s|
    ensures |g| == MatchCount(s, p) + 1
    decreases |s| - p
  {
    match NextMatch(s, p)
    case None => [s[p..]]
    case Some((a, e)) => [s[p..a]] + Gaps(s, e)
  }

  /** Interleave: gap, hole, gap, …, gap. */
  function Fill(gaps: seq<string>, holes: seq<string>): string
    requires |gaps| == |holes| + 1
  {
    if holes == [] then gaps[0] else gaps[0] + holes[0] + Fill(gaps[1..], holes[1..])
  }

  /** The matches and the texts around them make up the line again:
      substituting every placeholder by itself gives the line back. */
  lemma {:induction false} FillHoles(s: string, p: nat)
    requires p <= |s|
    ensures Fill(Gaps(s, p), Holes(s, p)) == s[p..]
    decreases |s| - p
  {
    match NextMatch(s, p)
    case None =>
      assert Gaps(s, p) == [s[p..]] && Holes(s, p) == [];
    case Some((a, e)) =>
      assert s[p..e] == s[p..a] + s[a..e];
      assert s[p..] == s[p..e] + s[e..];
      var g, h := Gaps(s, e), Holes(s, e);
      assert Gaps(s, p) == [s[p..a]] + g && Holes(s, p) == [s[a..e]] + h;
      FillCons(s[p..a], s[a..e], g, h);
      FillHoles(s, e);
  }

  lemma FillCons(x: string, y: string, gaps: seq<string>, holes: seq<string>)
    requires |gaps| == |holes| + 1
    ensures Fill([x] + gaps, [y] + holes) == x + y + Fill(gaps, holes)
  {
    assert ([x] + gaps)[1..] == gaps && ([y] + holes)[1..] == holes;
  }

  /** The `m` texts `backslashToString` hands out starting from counter `c`. */
  function Texts(txt: seq<string>, c: nat, m: nat): (t: seq<string>)
    ensures |t| == m
    decreases m
  {
    if m == 0 then [] else [Replacement(txt, c)] + Texts(txt, NextCount(txt, c), m - 1)
  }

  /** The `k`-th replacement is input line `c + k`, or the empty string once
      the input is used up. */
  lemma {:induction false} TextsAt(txt: seq<string>, c: nat, m: nat, k: nat)
    requires k < m
    ensures Texts(txt, c, m)[k] == if c + k < |txt| then txt[c + k] else ""
    decreases k
  {
    if k > 0 {
      TextsAt(txt, NextCount(txt, c), m - 1, k - 1);
      if c >= |txt| {
        assert NextCount(txt, c) == c;
      }
    }
  }

  function Min(x: int, y: int): int {
    if x <= y then x else y
  }

  /** The counter after `m` calls of `backslashToString` starting from `c`:
      it rises by one per call until it reaches `|txt|`, and a counter
      already past the end stays where it is. */
  function Advance(txt: seq<string>, c: nat, m: nat): nat {
    if c >= |txt| then c else Min(c + m, |txt|)
  }

  /** Counting `m1` and then `m2` calls is counting `m1 + m2` calls. */
  lemma AdvanceAdd(txt: seq<string>, c: nat, m1: nat, m2: nat)
    ensures Advance(txt, Advance(txt, c, m1), m2) == Advance(txt, c, m1 + m2)
  {
  }

  /** The counter never decreases and, started within the input, never passes its end. */
  lemma AdvanceBounds(txt: seq<string>, c: nat, m: nat)
    ensures c <= Advance(txt, c, m)
    ensures c <= |txt| ==> Advance(txt, c, m) <= |txt|
    ensures c + m <= |txt| ==> Advance(txt, c, m) == c + m
  {
  }

  /** `re.sub` replaces the `k`-th placeholder by the `k`-th text handed out
      and leaves the rest of the line as it was; the counter has advanced
      once per placeholder. */
  lemma {:induction false} SubSpec(s: string, p: nat, txt: seq<string>, c: nat)
    requires p <= |s|
    ensures SubFrom(s, p, txt, c).0 == Fill(Gaps(s, p), Texts(txt, c, MatchCount(s, p)))
    ensures SubFrom(s, p, txt, c).1 == Advance(txt, c, MatchCount(s, p))
    decreases |s| - p
  {
    match NextMatch(s, p)
    case None =>
    case Some((a, e)) =>
      SubSpec(s, e, txt, NextCount(txt, c));
      var m := MatchCount(s, e);
      assert Gaps(s, p)[1..] == Gaps(s, e);
      assert Texts(txt, c, m + 1)[1..] == Texts(txt, NextCount(txt, c), m);
  }

  /** A line without a placeholder comes out of `re.sub` as it went in,
      and the counter is untouched. */
  lemma SubNoMatch(s: string, txt: seq<string>, c: nat)
    requires !Search(s)
    ensures Sub(s, txt, c) == (s, c)
  {
    assert s[0..] == s;
  }

  // ---------------------------------------------------------------------
  // Language mode: `<language id="lang">` sections
  // ---------------------------------------------------------------------

  /** `t` occurs in `s` at position `i`. */
  predicate At(s: string, i: int, t: string) {
    0 <= i && i + |t| <= |s| && s[i..i + |t|] == t
  }

  predicate Contains(s: string, t: string) {
    exists i :: 0 <= i <= |s| && At(s, i, t)
  }

  const OpenTag: string := "<language id=\""
  const CloseTag: string := "</language>"

  /** `(<language id=\")(?!>)` finds a match. */
  predicate OpensTag(line: string) {
    exists i :: 0 <= i <= |line| && At(line, i, OpenTag) &&
      (i + |OpenTag| == |line| || line[i + |OpenTag|] != '>')
  }

  /** `(<\/language)(?=\>)` finds a match. */
  predicate ClosesTag(line: string) {
    Contains(line, CloseTag)
  }

  /** `({lang})(?=\">)` finds a match, `lang` read literally. */
  predicate MentionsLang(line: string, lang: string) {
    Contains(line, lang + "\">")
  }

  /** `is_substituting` when line `k` is reached: set by the last opening tag
      before it, true iff that tag names `lang`. */
  function Flag(xml: seq<string>, lang: string, k: nat): bool
    requires k <= |xml|
  {
    if k == 0 then false
    else if OpensTag(xml[k - 1]) then MentionsLang(xml[k - 1], lang)
    else Flag(xml, lang, k - 1)
  }

  /** The flag is on exactly when some earlier line opened a tag for `lang`
      and no line between opened another tag; a closing tag does not clear it. */
  lemma {:induction false} FlagLastTag(xml: seq<string>, lang: string, k: nat)
    requires k <= |xml|
    ensures Flag(xml, lang, k) <==>
      exists j :: 0 <= j < k && OpensTag(xml[j]) && MentionsLang(xml[j], lang) &&
        forall j' :: j < j' < k ==> !OpensTag(xml[j'])
  {
    if k > 0 {
      FlagLastTag(xml, lang, k - 1);
      if !OpensTag(xml[k - 1]) && Flag(xml, lang, k) {
        var j :| 0 <= j < k - 1 && OpensTag(xml[j]) && MentionsLang(xml[j], lang) &&
          forall j' :: j < j' < k - 1 ==> !OpensTag(xml[j']);
        assert forall j' :: j < j' < k ==> !OpensTag(xml[j']);
      }
    }
  }

  /** Line `k` is written through `re.sub`. */
  predicate Substitutes(xml: seq<string>, lang: string, k: nat)
    requires k < |xml|
  {
    Flag(xml, lang, k) && !ClosesTag(xml[k])
  }

  /** The helper `Write`: the chunk appended and the counter after it. */
  function WriteChunk(line: string, substituting: bool, txt: seq<string>, c: nat): (string, nat) {
    if substituting && Search(line) then (Sub(line, txt, c).0 + "\n", Sub(line, txt, c).1)
    else (line + "\n", c)
  }

  /** `Write` appends the line, substituted when asked, followed by a newline. */
  lemma WriteChunkSpec(line: string, substituting: bool, txt: seq<string>, c: nat)
    ensures substituting ==> WriteChunk(line, substituting, txt, c) == (Sub(line, txt, c).0 + "\n", Sub(line, txt, c).1)
    ensures !substituting ==> WriteChunk(line, substituting, txt, c) == (line + "\n", c)
  {
    if substituting && !Search(line) {
      SubNoMatch(line, txt, c);
    }
  }

  /** The chunks language mode writes for `xml[..k]` and the counter after them. */
  function LangRun(xml: seq<string>, lang: string, txt: seq<string>, c: nat, k: nat): (r: (seq<string>, nat))
    requires k <= |xml|
    ensures |r.0| == k
  {
    if k == 0 then ([], c)
    else
      var before := LangRun(xml, lang, txt, c, k - 1);
      var chunk := WriteChunk(xml[k - 1], Substitutes(xml, lang, k - 1), txt, before.1);
      (before.0 + [chunk.0], chunk.1)
  }

  /** Placeholders in the lines that language mode substitutes. */
  function LangMatches(xml: seq<string>, lang: string, k: nat): nat
    requires k <= |xml|
  {
    if k == 0 then 0
    else LangMatches(xml, lang, k - 1) + (if Substitutes(xml, lang, k - 1) then MatchCount(xml[k - 1], 0) else 0)
  }

  /** Chunk `j` of language mode is line `j` followed by a newline, through
      `re.sub` exactly when the line `Substitutes`, with the counter reached
      after the lines before it. */
  lemma {:induction false} LangChunk(xml: seq<string>, lang: string, txt: seq<string>, c: nat, j: nat, k: nat)
    requires j < k <= |xml|
    ensures var c' := LangRun(xml, lang, txt, c, j).1;
      LangRun(xml, lang, txt, c, k).0[j] ==
        if Substitutes(xml, lang, j) then Sub(xml[j], txt, c').0 + "\n" else xml[j] + "\n"
  {
    if j < k - 1 {
      var before := LangRun(xml, lang, txt, c, k - 1);
      assert LangRun(xml, lang, txt, c, k).0[j] == before.0[j];
      LangChunk(xml, lang, txt, c, j, k - 1);
    } else {
      WriteChunkSpec(xml[j], Substitutes(xml, lang, j), txt, LangRun(xml, lang, txt, c, j).1);
    }
  }

  /** Language mode consumes one input line per placeholder in the lines it substitutes. */
  lemma {:induction false} LangCounter(xml: seq<string>, lang: string, txt: seq<string>, c: nat, k: nat)
    requires k <= |xml|
    ensures LangRun(xml, lang, txt, c, k).1 == Advance(txt, c, LangMatches(xml, lang, k))
  {
    if k > 0 {
      LangCounter(xml, lang, txt, c, k - 1);
      var before := LangRun(xml, lang, txt, c, k - 1);
      var line := xml[k - 1];
      WriteChunkSpec(line, Substitutes(xml, lang, k - 1), txt, before.1);
      SubSpec(line, 0, txt, before.1);
      AdvanceAdd(txt, c, LangMatches(xml, lang, k - 1), if Substitutes(xml, lang, k - 1) then MatchCount(line, 0) else 0);
    }
  }

  /** The flag is updated after the line is written, so the line that turns
      it on is itself written unchanged. */
  lemma OpeningLineVerbatim(xml: seq<string>, lang: string, txt: seq<string>, c: nat, j: nat)
    requires j < |xml| && !Flag(xml, lang, j) && Flag(xml, lang, j + 1)
    ensures OpensTag(xml[j]) && MentionsLang(xml[j], lang)
    ensures LangRun(xml, lang, txt, c, |xml|).0[j] == xml[j] + "\n"
  {
    LangChunk(xml, lang, txt, c, j, |xml|);
  }

  /** Every chunk of language mode ends in a newline. */
  lemma LangNewlines(xml: seq<string>, lang: string, txt: seq<string>, c: nat, j: nat)
    requires j < |xml|
    ensures var chunk := LangRun(xml, lang, txt, c, |xml|).0[j]; chunk != "" && chunk[|chunk| - 1] == '\n'
  {
    LangChunk(xml, lang, txt, c, j, |xml|);
  }

  // ---------------------------------------------------------------------
  // Whole-document mode: `WriteAll`
  // ---------------------------------------------------------------------

  /** `i` in `WriteAll`: how many of `xml[..k]` hold a placeholder. */
  function MatchedLines(xml: seq<string>, k: nat): (n: nat)
    requires k <= |xml|
    ensures n <= k
  {
    if k == 0 then 0 else MatchedLines(xml, k - 1) + (if Search(xml[k - 1]) then 1 else 0)
  }

  /** One line of `WriteAll`, `i` lines with a placeholder before it: the chunk and the counter. */
  function DocChunk(line: string, i: nat, txt: seq<string>, c: nat): (string, nat) {
    if Search(line) then (Sub(line, txt, c).0 + (if i == |txt| then "" else "\n"), Sub(line, txt, c).1)
    else (line + (if i > |txt| then "" else "\n"), c)
  }

  /** The chunks `WriteAll` writes for `xml[..k]` and the counter after them. */
  function DocRun(xml: seq<string>, txt: seq<string>, c: nat, k: nat): (r: (seq<string>, nat))
    requires k <= |xml|
    ensures |r.0| == k
  {
    if k == 0 then ([], c)
    else
      var before := DocRun(xml, txt, c, k - 1);
      var chunk := DocChunk(xml[k - 1], MatchedLines(xml, k - 1), txt, before.1);
      (before.0 + [chunk.0], chunk.1)
  }

  /** Placeholders in `xml[..k]`. */
  function AllMatches(xml: seq<string>, k: nat): nat
    requires k <= |xml|
  {
    if k == 0 then 0 else AllMatches(xml, k - 1) + MatchCount(xml[k - 1], 0)
  }

  /** Chunk `j` of `WriteAll` is line `j`, through `re.sub` when it holds a
      placeholder, with the counter reached after the lines before it. */
  lemma {:induction false} DocChunkAt(xml: seq<string>, txt: seq<string>, c: nat, j: nat, k: nat)
    requires j < k <= |xml|
    ensures var c', i := DocRun(xml, txt, c, j).1, MatchedLines(xml, j);
      DocRun(xml, txt, c, k).0[j] ==
        if Search(xml[j]) then Sub(xml[j], txt, c').0 + (if i == |txt| then "" else "\n")
        else xml[j] + (if i > |txt| then "" else "\n")
  {
    if j < k - 1 {
      var before := DocRun(xml, txt, c, k - 1);
      assert DocRun(xml, txt, c, k).0[j] == before.0[j];
      DocChunkAt(xml, txt, c, j, k - 1);
    }
  }

  lemma {:induction false} MatchedLinesMonotone(xml: seq<string>, j: nat, k: nat)
    requires j <= k <= |xml|
    ensures MatchedLines(xml, j) <= MatchedLines(xml, k)
  {
    if j < k {
      MatchedLinesMonotone(xml, j, k - 1);
    }
  }

  /** When no more lines hold a placeholder than there are input lines, every
      chunk of `WriteAll` ends in a newline. */
  lemma DocNewlines(xml: seq<string>, txt: seq<string>, c: nat, j: nat)
    requires j < |xml| && MatchedLines(xml, |xml|) <= |txt|
    ensures var chunk := DocRun(xml, txt, c, |xml|).0[j]; chunk != "" && chunk[|chunk| - 1] == '\n'
  {
    DocChunkAt(xml, txt, c, j, |xml|);
    MatchedLinesMonotone(xml, j + 1, |xml|);
    var i := MatchedLines(xml, j);
    assert i < |txt| || (i == |txt| && !Search(xml[j]));
    var body := if Search(xml[j]) then Sub(xml[j], txt, DocRun(xml, txt, c, j).1).0 else xml[j];
    assert DocRun(xml, txt, c, |xml|).0[j] == body + "\n";
  }

  /** At most one line with a placeholder is written without its newline:
      the one reached when `i` equals the number of input lines. */
  lemma DocOneUnterminated(xml: seq<string>, txt: seq<string>, c: nat, j1: nat, j2: nat)
    requires j1 < j2 < |xml| && Search(xml[j1]) && Search(xml[j2])
    ensures MatchedLines(xml, j1) != |txt| || MatchedLines(xml, j2) != |txt|
  {
    MatchedLinesMonotone(xml, j1 + 1, j2);
  }

  /** `WriteAll` consumes one input line per placeholder in the document. */
  lemma {:induction false} DocCounter(xml: seq<string>, txt: seq<string>, c: nat, k: nat)
    requires k <= |xml|
    ensures DocRun(xml, txt, c, k).1 == Advance(txt, c, AllMatches(xml, k))
  {
    if k > 0 {
      DocCounter(xml, txt, c, k - 1);
      var before := DocRun(xml, txt, c, k - 1);
      var line := xml[k - 1];
      SubSpec(line, 0, txt, before.1);
      if !Search(line) {
        SubNoMatch(line, txt, before.1);
      }
      AdvanceAdd(txt, c, AllMatches(xml, k - 1), MatchCount(line, 0));
    }
  }

  /** Started within the input, the counter stays within it in both modes,
      and it never goes back. */
  lemma CounterBounded(xml: seq<string>, txt: seq<string>, lang: string, c: nat)
    requires c <= |txt|
    ensures c <= DocRun(xml, txt, c, |xml|).1 <= |txt|
    ensures c <= LangRun(xml, lang, txt, c, |xml|).1 <= |txt|
  {
    DocCounter(xml, txt, c, |xml|);
    AdvanceBounds(txt, c, AllMatches(xml, |xml|));
    LangCounter(xml, lang, txt, c, |xml|);
    AdvanceBounds(txt, c, LangMatches(xml, lang, |xml|));
  }

  // ---------------------------------------------------------------------
  // The writer: the module-global counter and the appended output
  // ---------------------------------------------------------------------

  /** `substitutions` is the module-global counter; `written` holds the
      strings appended to the output file, in order. */
  class Writer {
    var substitutions: nat
    var written: seq<string>

    /** Importing the module: the counter starts at 0, nothing written yet. */
    constructor ()
      ensures substitutions == 0 && written == []
    {
      substitutions := 0;
      written := [];
    }

    /** `backslashToString`: the next input text while any is left, then the
        empty string (after a warning) with the counter left alone. */
    method BackslashToString(txt: seq<string>) returns (r: string)
      modifies this
      ensures old(substitutions) < |txt| ==> r == txt[old(substitutions)] && substitutions == old(substitutions) + 1
      ensures old(substitutions) >= |txt| ==> r == "" && substitutions == old(substitutions)
      ensures written == old(written)
    {
      if substitutions < |txt| {
        r := txt[substitutions];
        substitutions := substitutions + 1;
      } else {
        r := "";
      }
    }

    /** `re.sub(pattern, backslashToString, line)`: scan for the leftmost
        match, keep the text before it, append the callback's result and go on
        after the match. */
    method Substitute(line: string, txt: seq<string>) returns (r: string)
      modifies this
      ensures (r, substitutions) == Sub(line, txt, old(substitutions))
      ensures written == old(written)
    {
      r := "";
      var p := 0;
      ghost var total := Sub(line, txt, substitutions);
      while true
        invariant p <= |line| && written == old(written)
        invariant r + SubFrom(line, p, txt, substitutions).0 == total.0
        invariant SubFrom(line, p, txt, substitutions).1 == total.1
        decreases |line| - p
      {
        var m := NextMatch(line, p);
        if m.None? {
          r := r + line[p..];
          return;
        }
        var (a, e) := m.value;
        ghost var c := substitutions;
        SubStep(line, p, txt, c, a, e);
        var rep := BackslashToString(txt);
        assert rep == Replacement(txt, c) && substitutions == NextCount(txt, c);
        ghost var next := SubFrom(line, e, txt, substitutions);
        Regroup(r, line[p..a], rep, next.0);
        r := r + line[p..a] + rep;
        p := e;
      }
    }

    /** `Write`: the line, through `re.sub` when substituting and a placeholder
        is found, followed by a newline. */
    method Write(line: string, substituting: bool, txt: seq<string>)
      modifies this
      ensures written == old(written) + [WriteChunk(line, substituting, txt, old(substitutions)).0]
      ensures substitutions == WriteChunk(line, substituting, txt, old(substitutions)).1
    {
      if substituting {
        if Search(line) {
          var sub := Substitute(line, txt);
          written := written + [sub + "\n"];
        } else {
          written := written + [line + "\n"];
        }
      } else {
        written := written + [line + "\n"];
      }
    }

    /** `WriteAll`: every line through `re.sub` when it holds a placeholder;
        `i` counts those lines and decides which chunks lose their newline. */
    method WriteAll(xml: seq<string>, txt: seq<string>)
      modifies this
      ensures written == old(written) + DocRun(xml, txt, old(substitutions), |xml|).0
      ensures substitutions == DocRun(xml, txt, old(substitutions), |xml|).1
    {
      var i := 0;
      var k := 0;
      while k < |xml|
        invariant k <= |xml| && i == MatchedLines(xml, k)
        invariant written == old(written) + DocRun(xml, txt, old(substitutions), k).0
        invariant substitutions == DocRun(xml, txt, old(substitutions), k).1
      {
        var line := xml[k];
        ghost var before := DocRun(xml, txt, old(substitutions), k);
        ghost var chunk := DocChunk(line, i, txt, substitutions);
        assert DocRun(xml, txt, old(substitutions), k + 1) == (before.0 + [chunk.0], chunk.1);
        if Search(line) {
          var sub := Substitute(line, txt);
          if i == |txt| {
            assert chunk.0 == sub + "" == sub;
            written := written + [sub];
          } else {
            written := written + [sub + "\n"];
          }
          i := i + 1;
        } else {
          if i > |txt| {
            assert chunk.0 == line + "" == line;
            written := written + [line];
          } else {
            written := written + [line + "\n"];
          }
        }
        assert old(written) + before.0 + [chunk.0] == old(written) + (before.0 + [chunk.0]);
        k := k + 1;
      }
    }

    /** `writeFile`: the whole document when `lang` is empty; otherwise a
        line is substituted when the last line before it containing
        `<language id="` names `lang` and the line itself has no
        `</language>` (a closing tag does not end substitution for the lines
        after it). */
    method WriteFile(xml: seq<string>, txt: seq<string>, lang: string)
      modifies this
      ensures lang == "" ==>
        (written == old(written) + DocRun(xml, txt, old(substitutions), |xml|).0 &&
         substitutions == DocRun(xml, txt, old(substitutions), |xml|).1)
      ensures lang != "" ==>
        (written == old(written) + LangRun(xml, lang, txt, old(substitutions), |xml|).0 &&
         substitutions == LangRun(xml, lang, txt, old(substitutions), |xml|).1)
    {
      if lang == "" {
        WriteAll(xml, txt);
        return;
      }
      var substituting := false;
      var k := 0;
      while k < |xml|
        invariant k <= |xml| && substituting == Flag(xml, lang, k)
        invariant written == old(written) + LangRun(xml, lang, txt, old(substitutions), k).0
        invariant substitutions == LangRun(xml, lang, txt, old(substitutions), k).1
      {
        var line := xml[k];
        if substituting {
          if ClosesTag(line) {
            Write(line, false, txt);
          } else {
            Write(line, substituting, txt);
          }
        } else {
          Write(line, false, txt);
        }
        if OpensTag(line) {
          if MentionsLang(line, lang) {
            substituting := true;
          } else {
            substituting := false;
          }
        }
        k := k + 1;
      }
    }
  }
}
