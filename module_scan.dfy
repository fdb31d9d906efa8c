/**
 * The splitter's module pattern
 *
 *     ((?:'[^\n]*\n)+)?(Module \w+[\s\S]*?End Module)      flag g
 *
 * stated as functions that follow the backtracking matcher step by step
 * (group 1 tries the most comment lines first, `\w+` the longest word
 * first, `[\s\S]*?` the nearest `End Module`), and an explicit scanner
 * (seeking, comment run, module body) proved to return the same matches.
 */
module ModuleScan {
  import opened Text

  const ModuleMarker: string := "Module "
  const EndMarker: string := "End Module"

  /**
   * One match: group 1, the leading comments, is t[start..bodyStart];
   * group 2, the module, is t[bodyStart..end]; `\w+` stopped at wordEnd.
   */
  datatype Match = Match(start: nat, bodyStart: nat, wordEnd: nat, end: nat)

  /**
   * A run of whole comment lines: every line starts with an apostrophe and
   * ends with '\n', and no other line sits between them.
   */
  predicate IsCommentRun(s: string) {
    s == [] ||
    (s[0] == '\'' && s[|s| - 1] == '\n' &&
     forall i :: 0 <= i < |s| - 1 && s[i] == '\n' ==> s[i + 1] == '\'')
  }

  lemma {:induction false} CommentRunCons(t: string, p: nat, n: nat, e: nat)
    requires p <= n < e <= |t| && e - 1 >= n
    requires t[p] == '\'' && t[n] == '\n'
    requires forall k :: p <= k < n ==> t[k] != '\n'
    requires IsCommentRun(t[n + 1..e])
    ensures IsCommentRun(t[p..e])
  {
    var s, r := t[p..e], t[n + 1..e];
    assert s[0] == '\'';
    if r == [] {
      assert e == n + 1;
    } else {
      assert s[|s| - 1] == r[|r| - 1];
    }
    forall i | 0 <= i < |s| - 1 && s[i] == '\n'
      ensures s[i + 1] == '\''
    {
      assert s[i] == t[p + i];
      if p + i == n {
        assert s[i + 1] == r[0];
      } else {
        assert s[i] == r[i - (n + 1 - p)];
        assert s[i + 1] == r[i + 1 - (n + 1 - p)];
      }
    }
  }

  /**
   * Where group 1 ends when it takes as many lines `'[^\n]*\n` as it can,
   * starting at p.
   */
  function CommentRunEnd(t: string, p: nat): (e: nat)
    requires p <= |t|
    ensures p <= e <= |t|
    decreases |t| - p
  {
    if p < |t| && t[p] == '\'' then
      match IndexOf(t, '\n', p)
      case Some(n) => CommentRunEnd(t, n + 1)
      case None => p
    else p
  }

  /**
   * The greedy run is made of whole comment lines, and it cannot be
   * extended: what follows it is not an apostrophe that opens a line
   * ending in '\n'.
   */
  lemma {:induction false} CommentRunShape(t: string, p: nat)
    requires p <= |t|
    ensures var e := CommentRunEnd(t, p);
      && IsCommentRun(t[p..e])
      && (e < |t| && t[e] == '\'' ==> IndexOf(t, '\n', e).None?)
    decreases |t| - p
  {
    if p < |t| && t[p] == '\'' {
      match IndexOf(t, '\n', p)
      case Some(n) =>
        var e := CommentRunEnd(t, n + 1);
        assert CommentRunEnd(t, p) == e;
        CommentRunShape(t, n + 1);
        CommentRunCons(t, p, n, e);
      case None =>
        assert CommentRunEnd(t, p) == p;
    }
  }

  /**
   * Every place where group 1 may stop: p itself (group 1 absent), then the
   * end of each further comment line, the last being CommentRunEnd(t, p).
   */
  function CommentStops(t: string, p: nat): (c: seq<nat>)
    requires p <= |t|
    ensures |c| >= 1 && c[0] == p && c[|c| - 1] == CommentRunEnd(t, p)
    ensures forall k :: 0 <= k < |c| ==> p <= c[k] <= |t|
    ensures forall k :: 0 <= k < |c| - 1 ==> c[k] < |t| && t[c[k]] == '\''
    decreases |t| - p
  {
    if p < |t| && t[p] == '\'' then
      match IndexOf(t, '\n', p)
      case Some(n) => [p] + CommentStops(t, n + 1)
      case None => [p]
    else [p]
  }

  /** End of the run of word characters that starts at i. */
  function WordEnd(t: string, i: nat): (r: nat)
    requires i <= |t|
    ensures i <= r <= |t|
    ensures forall k :: i <= k < r ==> IsWordChar(t[k])
    ensures r == |t| || !IsWordChar(t[r])
    decreases |t| - i
  {
    if i < |t| && IsWordChar(t[i]) then WordEnd(t, i + 1) else i
  }

  /** The two properties above pin the run's end down. */
  lemma WordEndUnique(t: string, i: nat, r: nat)
    requires i <= r <= |t|
    requires forall k :: i <= k < r ==> IsWordChar(t[k])
    requires r == |t| || !IsWordChar(t[r])
    ensures WordEnd(t, i) == r
  {
  }

  lemma {:induction false} WordEndAtLeast(t: string, i: nat, r: nat)
    requires i <= r <= |t|
    requires forall k :: i <= k < r ==> IsWordChar(t[k])
    ensures WordEnd(t, i) >= r
    decreases r - i
  {
    if i < r {
      WordEndAtLeast(t, i + 1, r);
    }
  }

  /** The nearest "End Module" at or after i: what `[\s\S]*?End Module` reaches. */
  function FindEnd(t: string, i: nat): (r: Option<nat>)
    requires i <= |t|
    ensures r.Some? ==> i <= r.value && r.value + 10 <= |t|
    decreases |t| - i
  {
    if EndAt(t, i) then Some(i)
    else if i == |t| then None
    else FindEnd(t, i + 1)
  }

  /** FindEnd finds a closing marker, and none comes before it. */
  lemma {:induction false} FindEndIsFirst(t: string, i: nat)
    requires i <= |t|
    ensures var r := FindEnd(t, i);
      && (r.Some? ==> EndAt(t, r.value))
      && (forall k :: i <= k <= |t| && (r.None? || k < r.value) ==> !EndAt(t, k))
    decreases |t| - i
  {
    if !EndAt(t, i) && i < |t| {
      FindEndIsFirst(t, i + 1);
    }
  }

  /** The marker FindEnd reports from i is there, and none comes before it. */
  lemma FindEndAt(t: string, i: nat, g: nat)
    requires i <= |t| && FindEnd(t, i).Some? && FindEnd(t, i).value == g
    ensures EndAt(t, g) && forall k :: i <= k < g ==> !EndAt(t, k)
  {
    FindEndIsFirst(t, i);
  }

  /** "End Module" occurs at i. */
  predicate EndAt(t: string, i: nat) {
    i + 10 <= |t| && t[i..i + 10] == EndMarker
  }

  predicate HasHeader(t: string, e: nat) {
    HasAt(t, e, ModuleMarker) && e + 7 < |t| && IsWordChar(t[e + 7])
  }

  /**
   * `\w+` gives back characters one at a time: with a word of length j
   * the lazy part takes the nearest "End Module" at or after e + 7 + j;
   * when there is none, the word is tried one character shorter.
   * The result is (wordEnd, end of match).
   */
  function TryWordLengths(t: string, e: nat, j: nat): (r: Option<(nat, nat)>)
    requires e + 7 + j <= |t|
    ensures r.Some? ==> e + 7 < r.value.0 <= e + 7 + j && r.value.0 + 10 <= r.value.1 <= |t|
    decreases j
  {
    if j == 0 then None
    else match FindEnd(t, e + 7 + j)
      case Some(f) => Some((e + 7 + j, f + 10))
      case None => TryWordLengths(t, e, j - 1)
  }

  /** A closing marker found from i is also found from any earlier start. */
  lemma {:induction false} FindEndEarlier(t: string, k: nat, i: nat)
    requires k <= i <= |t|
    requires FindEnd(t, i).Some?
    ensures FindEnd(t, k).Some?
    decreases i - k
  {
    if k < i && !EndAt(t, k) {
      FindEndEarlier(t, k + 1, i);
    }
  }

  /**
   * The span found ends with the nearest "End Module" from the word's end,
   * and the word is shortened only when no closing marker follows the
   * longer one.
   */
  lemma {:induction false} TryWordLengthsFound(t: string, e: nat, j: nat)
    requires e + 7 + j <= |t|
    ensures var r := TryWordLengths(t, e, j);
      r.Some? ==>
        && FindEnd(t, r.value.0).Some? && FindEnd(t, r.value.0).value + 10 == r.value.1
        && (r.value.0 == e + 7 + j || FindEnd(t, e + 7 + j).None?)
    decreases j
  {
    if j > 0 && FindEnd(t, e + 7 + j).None? {
      TryWordLengthsFound(t, e, j - 1);
    }
  }

  /** Some word length succeeds exactly when a closing marker starts after the word's first character. */
  lemma {:induction false} TryWordLengthsSome(t: string, e: nat, j: nat)
    requires 1 <= j && e + 7 + j <= |t|
    ensures TryWordLengths(t, e, j).Some? <==> FindEnd(t, e + 8).Some?
    decreases j
  {
    if FindEnd(t, e + 7 + j).Some? {
      FindEndEarlier(t, e + 8, e + 7 + j);
    } else if j > 1 {
      TryWordLengthsSome(t, e, j - 1);
    }
  }

  /**
   * Group 2 tried at e: "Module ", the longest word that still leaves a
   * closing marker after it, and the nearest "End Module" after the word.
   */
  function BodyAt(t: string, e: nat): (r: Option<(nat, nat)>)
    requires e <= |t|
    ensures r.Some? ==> e + 7 < r.value.0 && r.value.0 + 10 <= r.value.1 <= |t|
  {
    if HasHeader(t, e) then TryWordLengths(t, e, WordEnd(t, e + 7) - (e + 7)) else None
  }

  /** A word ending at v within the word at e + 7, then the first marker from v ending at f. */
  lemma BodyFound(t: string, e: nat, v: nat, f: nat)
    requires e + 7 <= v <= |t| && v <= WordEnd(t, e + 7)
    requires FindEnd(t, v).Some? && FindEnd(t, v).value + 10 == f
    ensures forall k :: e + 7 <= k < v ==> IsWordChar(t[k])
    ensures EndAt(t, f - 10) && forall k :: v <= k < f - 10 ==> !EndAt(t, k)
  {
    FindEndAt(t, v, f - 10);
  }

  /**
   * A module body found at e opens with "Module " and a word, closes with
   * the first "End Module" after that word, and takes the whole word unless
   * no closing marker follows it; one is found exactly when the header is
   * there and a closing marker starts after the word's first character.
   */
  lemma BodyAtShape(t: string, e: nat)
    requires e <= |t|
    ensures var r := BodyAt(t, e);
      && (r.Some? ==>
        && HasAt(t, e, ModuleMarker)
        && (forall k :: e + 7 <= k < r.value.0 ==> IsWordChar(t[k]))
        && EndAt(t, r.value.1 - 10)
        && (forall k :: r.value.0 <= k < r.value.1 - 10 ==> !EndAt(t, k))
        && (r.value.0 == WordEnd(t, e + 7) || FindEnd(t, WordEnd(t, e + 7)).None?))
      && (r.Some? <==> HasHeader(t, e) && FindEnd(t, e + 8).Some?)
  {
    if HasHeader(t, e) {
      var w := WordEnd(t, e + 7);
      assert w >= e + 8;
      var j := w - (e + 7);
      assert e + 7 + j == w;
      var r := TryWordLengths(t, e, j);
      assert BodyAt(t, e) == r;
      TryWordLengthsFound(t, e, j);
      TryWordLengthsSome(t, e, j);
      if r.Some? {
        BodyFound(t, e, r.value.0, r.value.1);
      }
    } else {
      assert BodyAt(t, e).None?;
    }
  }

  /** Group 1 as the matcher tries it: the stop after k lines, then k - 1, ..., then none. */
  function TryStops(t: string, c: seq<nat>, k: nat): (r: Option<(nat, nat, nat)>)
    requires k < |c|
    requires forall i :: 0 <= i < |c| ==> c[0] <= c[i] <= |t|
    ensures r.Some? ==> c[0] <= r.value.0 && r.value.0 + 17 <= r.value.2 <= |t|
    decreases k
  {
    match BodyAt(t, c[k])
    case Some(b) => Some((c[k], b.0, b.1))
    case None => if k == 0 then None else TryStops(t, c, k - 1)
  }

  /** The match that starts at p, if the pattern matches there. */
  function MatchAt(t: string, p: nat): (r: Option<Match>)
    requires p <= |t|
    ensures r.Some? ==> r.value.start == p <= r.value.bodyStart && r.value.bodyStart + 17 <= r.value.end <= |t|
  {
    var c := CommentStops(t, p);
    match TryStops(t, c, |c| - 1)
    case Some(x) => Some(Match(p, x.0, x.1, x.2))
    case None => None
  }

  /** What every match of the pattern looks like. */
  predicate IsMatch(t: string, m: Match) {
    && m.start <= m.bodyStart && m.bodyStart + 7 < m.wordEnd && m.wordEnd + 10 <= m.end <= |t|
    && IsCommentRun(t[m.start..m.bodyStart])
    && HasAt(t, m.bodyStart, ModuleMarker)
    && (forall k :: m.bodyStart + 7 <= k < m.wordEnd ==> IsWordChar(t[k]))
    && EndAt(t, m.end - 10)
    && (forall k :: m.wordEnd <= k < m.end - 10 ==> !EndAt(t, k))
  }

  lemma {:induction false} TryStopsSkipsQuotes(t: string, c: seq<nat>, k: nat)
    requires k < |c|
    requires forall i :: 0 <= i < |c| ==> c[0] <= c[i] <= |t|
    requires forall i :: 0 <= i <= k ==> c[i] < |t| && t[c[i]] == '\''
    ensures TryStops(t, c, k).None?
    decreases k
  {
    if c[k] + 7 <= |t| {
      assert t[c[k]..c[k] + 7][0] == '\'';
    }
    if k > 0 {
      TryStopsSkipsQuotes(t, c, k - 1);
    }
  }

  /**
   * Group 1 never gives lines back: a shorter run ends on an apostrophe,
   * where "Module" cannot start, so the match at p is the one whose
   * comments are the whole run of comment lines from p.
   */
  lemma GreedyComments(t: string, p: nat)
    requires p <= |t|
    ensures var e := CommentRunEnd(t, p);
      MatchAt(t, p) == match BodyAt(t, e)
        case Some(b) => Some(Match(p, e, b.0, b.1))
        case None => None
  {
    var c := CommentStops(t, p);
    if BodyAt(t, c[|c| - 1]).None? && |c| > 1 {
      TryStopsSkipsQuotes(t, c, |c| - 2);
    }
  }

  /** Every match found at p starts at p and has the shape of IsMatch. */
  lemma MatchAtShape(t: string, p: nat)
    requires p <= |t|
    ensures MatchAt(t, p).Some? ==> MatchAt(t, p).value.start == p && IsMatch(t, MatchAt(t, p).value)
  {
    GreedyComments(t, p);
    CommentRunShape(t, p);
    BodyAtShape(t, CommentRunEnd(t, p));
  }

  /**
   * `moduleRegex.exec(t)` with `lastIndex == from`: the match at the first
   * position from `from` on where the pattern matches.
   */
  function NextMatch(t: string, from: nat): (r: Option<Match>)
    requires from <= |t|
    ensures r.Some? ==> from <= r.value.start <= r.value.bodyStart && r.value.bodyStart + 17 <= r.value.end <= |t|
    decreases |t| - from
  {
    match MatchAt(t, from)
    case Some(m) => Some(m)
    case None => if from == |t| then None else NextMatch(t, from + 1)
  }

  /**
   * What `exec` promises: the match returned is the one at its own start,
   * and the pattern matches nowhere between `from` and that start (nowhere
   * at all when nothing is returned).
   */
  lemma {:induction false} NextMatchIsFirst(t: string, from: nat)
    requires from <= |t|
    ensures var r := NextMatch(t, from);
      && (r.Some? ==> MatchAt(t, r.value.start) == r)
      && (forall p :: from <= p <= |t| && (r.None? || p < r.value.start) ==> MatchAt(t, p).None?)
    decreases |t| - from
  {
    var r := NextMatch(t, from);
    if MatchAt(t, from).None? && from < |t| {
      var r' := NextMatch(t, from + 1);
      NextMatchIsFirst(t, from + 1);
      assert r == r';
      forall p | from <= p <= |t| && (r.None? || p < r.value.start)
        ensures MatchAt(t, p).None?
      {
        if p > from {
          assert from + 1 <= p && (r'.None? || p < r'.value.start);
        }
      }
    }
  }

  /** All matches of the global pattern, each search resuming where the last match ended. */
  function AllMatches(t: string, from: nat): (ms: seq<Match>)
    requires from <= |t|
    decreases |t| - from
  {
    match NextMatch(t, from)
    case None => []
    case Some(m) => [m] + AllMatches(t, m.end)
  }

  /** True when p lies inside one of the spans of ms. */
  predicate Covered(ms: seq<Match>, p: nat) {
    exists i :: 0 <= i < |ms| && ms[i].start <= p < ms[i].end
  }

  /**
   * The i-th match is what `exec` returns when resumed where the previous
   * match ended (at `from` for the first one).
   */
  lemma {:induction false} AllMatchesAt(t: string, from: nat, i: nat)
    requires from <= |t|
    requires i < |AllMatches(t, from)|
    ensures var ms := AllMatches(t, from);
      && from <= ms[i].start
      && (i == 0 ==> NextMatch(t, from) == Some(ms[i]))
      && (i > 0 ==> ms[i - 1].end <= |t| && NextMatch(t, ms[i - 1].end) == Some(ms[i]))
    decreases |t| - from
  {
    var m := NextMatch(t, from).value;
    var ms, rest := AllMatches(t, from), AllMatches(t, m.end);
    assert ms == [m] + rest;
    if i > 0 {
      AllMatchesAt(t, m.end, i - 1);
      assert ms[i] == rest[i - 1];
      if i > 1 {
        assert ms[i - 1] == rest[i - 2];
      }
    }
  }

  /**
   * The i-th match lies after `from`, has the shape of IsMatch, and ends
   * before the next one starts.
   */
  lemma MatchInOrder(t: string, from: nat, i: nat)
    requires from <= |t|
    requires i < |AllMatches(t, from)|
    ensures var ms := AllMatches(t, from);
      && from <= ms[i].start && IsMatch(t, ms[i])
      && (i + 1 < |ms| ==> ms[i].end <= ms[i + 1].start)
  {
    var ms := AllMatches(t, from);
    MatchFound(t, from, i);
    if i + 1 < |ms| {
      AllMatchesAt(t, from, i + 1);
    }
  }

  /** The i-th match is a match of the pattern at its own start. */
  lemma MatchFound(t: string, from: nat, i: nat)
    requires from <= |t|
    requires i < |AllMatches(t, from)|
    ensures from <= AllMatches(t, from)[i].start && IsMatch(t, AllMatches(t, from)[i])
  {
    var m := AllMatches(t, from)[i];
    AllMatchesAt(t, from, i);
    var resume := if i == 0 then from else AllMatches(t, from)[i - 1].end;
    NextMatchIsFirst(t, resume);
    assert MatchAt(t, m.start) == Some(m);
    MatchAtShape(t, m.start);
  }

  /** The matches come left to right, do not overlap, and each has the shape of IsMatch. */
  lemma MatchesInOrder(t: string, from: nat)
    requires from <= |t|
    ensures var ms := AllMatches(t, from);
      && (forall i :: 0 <= i < |ms| ==> from <= ms[i].start && IsMatch(t, ms[i]))
      && (forall i :: 0 <= i < |ms| - 1 ==> ms[i].end <= ms[i + 1].start)
  {
    var ms := AllMatches(t, from);
    forall i | 0 <= i < |ms|
      ensures from <= ms[i].start && IsMatch(t, ms[i])
      ensures i < |ms| - 1 ==> ms[i].end <= ms[i + 1].start
    {
      MatchInOrder(t, from, i);
    }
  }

  /**
   * No match could start anywhere outside the spans found: text between
   * them is left out only because the pattern does not match there.
   */
  lemma {:induction false} MatchesCoverAll(t: string, from: nat, p: nat)
    requires from <= p <= |t| && MatchAt(t, p).Some?
    ensures Covered(AllMatches(t, from), p)
    decreases |t| - from
  {
    NextMatchIsFirst(t, from);
    var m := NextMatch(t, from).value;
    var ms := AllMatches(t, from);
    assert ms[0] == m;
    // exec stops at the first position where the pattern matches, so not after p
    assert m.start <= p;
    if p < m.end {
      assert ms[0].start <= p < ms[0].end;
    } else {
      MatchesCoverAll(t, m.end, p);
      var rest := AllMatches(t, m.end);
      var i :| 0 <= i < |rest| && rest[i].start <= p < rest[i].end;
      assert ms[i + 1] == rest[i];
    }
  }

  /**
   * A module keeps the comment lines written just above it: no run of
   * comment lines that starts after `from` and before the match that
   * `exec` returns reaches that match's "Module" header, since the match
   * would then have started there, with those lines as its comments.
   */
  lemma CommentsAttach(t: string, from: nat, q: nat)
    requires from <= q <= |t| && NextMatch(t, from).Some? && q < NextMatch(t, from).value.start
    ensures CommentRunEnd(t, q) != NextMatch(t, from).value.bodyStart
  {
    var m := NextMatch(t, from).value;
    NextMatchIsFirst(t, from);
    GreedyComments(t, q);
    GreedyComments(t, m.start);
  }

  /** The same for every match: nothing between it and the previous match carries comments up to its header. */
  lemma CommentsAttachAll(t: string, i: nat, q: nat)
    requires i < |AllMatches(t, 0)| && q <= |t|
    requires (if i == 0 then 0 else AllMatches(t, 0)[i - 1].end) <= q < AllMatches(t, 0)[i].start
    ensures CommentRunEnd(t, q) != AllMatches(t, 0)[i].bodyStart
  {
    AllMatchesAt(t, 0, i);
    var resume := if i == 0 then 0 else AllMatches(t, 0)[i - 1].end;
    CommentsAttach(t, resume, q);
  }

  /** The module name: the word after the first "Module " in the body, as `/Module (\w+)/` finds it. */
  function NameFrom(body: string, q: nat): (r: Option<string>)
    requires q <= |body|
    decreases |body| - q
  {
    if HasAt(body, q, ModuleMarker) && q + 7 < |body| && IsWordChar(body[q + 7]) then
      Some(body[q + 7..WordEnd(body, q + 7)])
    else if q == |body| then None
    else NameFrom(body, q + 1)
  }

  function ModuleName(body: string): string {
    match NameFrom(body, 0)
    case Some(n) => n
    case None => "UnknownModule"
  }

  function ModuleFileName(body: string): string {
    ModuleName(body) + ".gpl"
  }

  /**
   * The name of a matched module is the whole run of word characters after
   * its "Module ", never empty; the "UnknownModule" fallback is unreachable.
   */
  lemma MatchedModuleName(t: string, m: Match)
    requires IsMatch(t, m)
    ensures var w := WordEnd(t, m.bodyStart + 7);
      && m.wordEnd <= w < m.end
      && NameFrom(t[m.bodyStart..m.end], 0) == Some(t[m.bodyStart + 7..w])
      && ModuleName(t[m.bodyStart..m.end]) == t[m.bodyStart + 7..w]
  {
    // the blank inside the closing "End Module" ends the word
    EndMarkerBlank(t, m.end - 10);
    NameOfBody(t, m.bodyStart, m.wordEnd, m.end);
  }

  /** The name read from a body that opens with a header and holds a non-word character after its word. */
  lemma NameOfBody(t: string, b: nat, v: nat, e: nat)
    requires HasAt(t, b, ModuleMarker) && b + 7 < v <= e - 7 && e <= |t|
    requires forall k :: b + 7 <= k < v ==> IsWordChar(t[k])
    requires !IsWordChar(t[e - 7])
    ensures var w := WordEnd(t, b + 7);
      && v <= w <= e - 7
      && NameFrom(t[b..e], 0) == Some(t[b + 7..w])
      && ModuleName(t[b..e]) == t[b + 7..w]
  {
    var w := WordEnd(t, b + 7);
    WordEndAtLeast(t, b + 7, v);
    HeaderInSlice(t, b, e);
    WordEndInSlice(t, b, e, b + 7);
    SliceOfSlice(t, b, e, 7, w - b);
  }

  /** "End Module" has a blank at its fourth character. */
  lemma EndMarkerBlank(t: string, i: nat)
    requires EndAt(t, i)
    ensures t[i + 3] == ' ' && !IsWordChar(t[i + 3])
  {
    assert t[i + 3] == t[i..i + 10][3];
  }

  /** A header at b is a header at the start of any slice that begins at b and holds its first word character. */
  lemma HeaderInSlice(t: string, b: nat, e: nat)
    requires HasAt(t, b, ModuleMarker) && b + 7 < e <= |t| && IsWordChar(t[b + 7])
    ensures HasAt(t[b..e], 0, ModuleMarker) && 7 < |t[b..e]| && IsWordChar(t[b..e][7])
  {
    var body := t[b..e];
    assert body[..7] == t[b..b + 7];
    assert body[7] == t[b + 7];
  }

  /** A word that ends inside a slice ends at the same place in the slice. */
  lemma WordEndInSlice(t: string, b: nat, e: nat, i: nat)
    requires b <= i <= e <= |t|
    requires WordEnd(t, i) < e
    ensures WordEnd(t[b..e], i - b) == WordEnd(t, i) - b
  {
    var s, w := t[b..e], WordEnd(t, i);
    forall k | i - b <= k < w - b ensures IsWordChar(s[k]) {
      assert s[k] == t[b + k];
    }
    assert s[w - b] == t[w];
    WordEndUnique(s, i - b, w - b);
  }

  /** The comment run searched line by line: the comment-run state of the scanner. */
  method SkipCommentRun(t: string, p: nat) returns (e: nat)
    requires p <= |t|
    ensures e == CommentRunEnd(t, p)
  {
    e := p;
    while e < |t| && t[e] == '\''
      invariant p <= e <= |t|
      invariant CommentRunEnd(t, e) == CommentRunEnd(t, p)
      decreases |t| - e
    {
      var r := SearchLineFeed(t, e);
      if r.None? {
        return;
      }
      e := r.value + 1;
    }
  }

  /** The nearest line feed at or after i. */
  method SearchLineFeed(t: string, i: nat) returns (r: Option<nat>)
    requires i <= |t|
    ensures r == IndexOf(t, '\n', i)
  {
    var n := i;
    while n < |t| && t[n] != '\n'
      invariant i <= n <= |t|
      invariant IndexOf(t, '\n', n) == IndexOf(t, '\n', i)
      decreases |t| - n
    {
      n := n + 1;
    }
    r := if n == |t| then None else Some(n);
  }

  /** The nearest closing marker at or after i. */
  method SearchEndMarker(t: string, i: nat) returns (r: Option<nat>)
    requires i <= |t|
    ensures r == FindEnd(t, i)
  {
    var k := i;
    while k < |t| && !EndAt(t, k)
      invariant i <= k <= |t|
      invariant FindEnd(t, k) == FindEnd(t, i)
      decreases |t| - k
    {
      k := k + 1;
    }
    if EndAt(t, k) {
      return Some(k);
    }
    return None;
  }

  /** The run of word characters from i, read one character at a time. */
  method ScanWord(t: string, i: nat) returns (w: nat)
    requires i <= |t|
    ensures w == WordEnd(t, i)
  {
    w := i;
    while w < |t| && IsWordChar(t[w])
      invariant i <= w <= |t|
      invariant WordEnd(t, w) == WordEnd(t, i)
      decreases |t| - w
    {
      w := w + 1;
    }
  }

  /**
   * The backtracking of `\w+`: the word of length j, then j - 1, ..., each
   * followed by a search for the nearest closing marker.
   */
  method GiveBackWord(t: string, e: nat, j0: nat) returns (r: Option<(nat, nat)>)
    requires e + 7 + j0 <= |t|
    ensures r == TryWordLengths(t, e, j0)
  {
    var j := j0;
    while j > 0
      invariant 0 <= j <= j0
      invariant TryWordLengths(t, e, j) == TryWordLengths(t, e, j0)
      decreases j
    {
      var f := SearchEndMarker(t, e + 7 + j);
      if f.Some? {
        return Some((e + 7 + j, f.value + 10));
      }
      j := j - 1;
    }
    return None;
  }

  /** The module-body state of the scanner: header, longest usable word, nearest closing marker. */
  method ScanBody(t: string, e: nat) returns (r: Option<(nat, nat)>)
    requires e <= |t|
    ensures r == BodyAt(t, e)
  {
    if !HasHeader(t, e) {
      return None;
    }
    var w := ScanWord(t, e + 7);
    r := GiveBackWord(t, e, w - (e + 7));
  }

  /**
   * The attempt at one position: the run of comment lines read greedily,
   * then a module body right after it.
   */
  method ScanAt(t: string, p: nat) returns (r: Option<Match>)
    requires p <= |t|
    ensures r == MatchAt(t, p)
  {
    var e := SkipCommentRun(t, p);
    var body := ScanBody(t, e);
    GreedyComments(t, p);
    if body.Some? {
      r := Some(Match(p, e, body.value.0, body.value.1));
    } else {
      r := None;
    }
  }

  /**
   * One call of `moduleRegex.exec(t)` with `lastIndex == from`, as an
   * explicit scanner: from each position it reads the run of comment lines,
   * tries a module body right after it, and otherwise moves one character on.
   */
  method Exec(t: string, from: nat) returns (r: Option<Match>)
    requires from <= |t|
    ensures r == NextMatch(t, from)
  {
    var p := from;
    r := ScanAt(t, p);
    while r.None? && p < |t|
      invariant from <= p <= |t| && r == MatchAt(t, p)
      invariant NextMatch(t, p) == NextMatch(t, from)
      decreases |t| - p
    {
      p := p + 1;
      r := ScanAt(t, p);
    }
  }
}
