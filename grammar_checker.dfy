/**
 * Sentence analysis: the three `re.search` calls that pull the corrected sentence,
 * the grammar score and the explanation out of the model's free text, the output
 * format the system prompt asks the model for, and the reply handling around them.
 */
module GrammarChecker {
  import opened Wrappers
  import opened Text
  import opened Groq

  const CORRECTED_MARKER := "**Corrected sentence:**"
  const SCORE_MARKER := "**Grammar score:**"
  const EXPLANATION_MARKER := "**Explanation:**"

  /** The dictionary the analysis returns. */
  datatype Analysis = Analysis(corrected: string, score: string, explanation: string)

  /** Whether `.` accepts `c`: any character but a newline, or any at all under `re.DOTALL`. */
  predicate Dot(c: char, dotAll: bool) {
    dotAll || c != '\n'
  }

  /** The pattern `marker\s*(.+)` matches `s` starting at `start`, with group 1
      spanning `s[g0..g1]`. */
  predicate MatchSpan(s: string, marker: string, dotAll: bool, start: int, g0: int, g1: int) {
    Occurs(s, marker, start) && start + |marker| <= g0 < g1 <= |s|
    && AllSpace(s[start + |marker|..g0])
    && forall k :: g0 <= k < g1 ==> Dot(s[k], dotAll)
  }

  /** Where a match starts and where its group 1 starts and ends. */
  datatype Span = Span(start: nat, g0: nat, g1: nat)

  /** The match `re.search` reports, in the order its backtracking tries them:
      the leftmost start, then the longest `\s*`, then the longest `.+`. */
  ghost predicate SearchResult(s: string, marker: string, dotAll: bool, from: nat, sp: Span) {
    from <= sp.start
    && MatchSpan(s, marker, dotAll, sp.start, sp.g0, sp.g1)
    && (forall i, h0, h1 :: from <= i < sp.start ==> !MatchSpan(s, marker, dotAll, i, h0, h1))
    && (forall h0, h1 :: MatchSpan(s, marker, dotAll, sp.start, h0, h1) ==>
          h0 < sp.g0 || (h0 == sp.g0 && h1 <= sp.g1))
  }

  /** Greedy `.+` (or `.*`) from `k`: where the run of characters `.` accepts ends. */
  function DotEnd(s: string, k: nat, dotAll: bool): (e: nat)
    requires k <= |s|
    ensures k <= e <= |s|
    ensures forall j :: k <= j < e ==> Dot(s[j], dotAll)
    ensures e < |s| ==> !Dot(s[e], dotAll)
  {
    if dotAll then |s|
    else
      var e := LineEnd(s, k);
      assert forall j :: k <= j < e ==> s[j] == s[k..e][j - k];
      e
  }

  /** `\s*` giving back one character at a time, from `k` down to `lo`, until `.`
      can match the next character: the largest such position, if any. */
  function Backtrack(s: string, dotAll: bool, lo: nat, k: nat): (r: Option<nat>)
    requires lo <= k <= |s|
    ensures r.Some? ==> lo <= r.value <= k && r.value < |s| && Dot(s[r.value], dotAll)
    ensures forall j :: lo <= j <= k && j < |s| && Dot(s[j], dotAll) ==> r.Some? && j <= r.value
    decreases k - lo
  {
    if k < |s| && Dot(s[k], dotAll) then Some(k)
    else if k == lo then None
    else Backtrack(s, dotAll, lo, k - 1)
  }

  /** `\s*` cannot reach past the first non-whitespace character after the marker. */
  lemma SpaceRunBound(s: string, marker: string, dotAll: bool, start: int, h0: int, h1: int)
    requires MatchSpan(s, marker, dotAll, start, h0, h1)
    ensures h0 <= SpaceEnd(s, start + |marker|)
    ensures h0 < |s| && Dot(s[h0], dotAll)
  {
  }

  lemma AllSpacePrefix(s: string, a: nat, g0: nat, q: nat)
    requires a <= g0 <= q <= |s| && AllSpace(s[a..q])
    ensures AllSpace(s[a..g0])
  {
    forall j | 0 <= j < g0 - a
      ensures IsSpace(s[a..g0][j])
    {
      assert s[a..g0][j] == s[a..q][j];
    }
  }

  /** The regular-expression engine's attempt at one start position where the
      marker occurs. */
  function MatchAt(s: string, marker: string, dotAll: bool, start: nat): (r: Option<Span>)
    requires Occurs(s, marker, start)
    ensures r.Some? ==> SearchResult(s, marker, dotAll, start, r.value) && r.value.start == start
    ensures r.None? ==> forall h0, h1 :: !MatchSpan(s, marker, dotAll, start, h0, h1)
  {
    var a := start + |marker|;
    var q := SpaceEnd(s, a);
    match Backtrack(s, dotAll, a, q)
    case None =>
      assert forall h0, h1 :: !MatchSpan(s, marker, dotAll, start, h0, h1) by {
        forall h0, h1 | MatchSpan(s, marker, dotAll, start, h0, h1)
          ensures false
        {
          SpaceRunBound(s, marker, dotAll, start, h0, h1);
        }
      }
      None
    case Some(g0) =>
      var e := DotEnd(s, g0, dotAll);
      assert MatchSpan(s, marker, dotAll, start, g0, e) by {
        AllSpacePrefix(s, a, g0, q);
      }
      assert forall h0, h1 :: MatchSpan(s, marker, dotAll, start, h0, h1) ==>
          h0 < g0 || (h0 == g0 && h1 <= e) by {
        forall h0, h1 | MatchSpan(s, marker, dotAll, start, h0, h1)
          ensures h0 < g0 || (h0 == g0 && h1 <= e)
        {
          SpaceRunBound(s, marker, dotAll, start, h0, h1);
        }
      }
      Some(Span(start, g0, e))
  }

  /** `re.search`: the engine tries each start position from `from` on, left to right. */
  function SearchFrom(s: string, marker: string, dotAll: bool, from: nat): (r: Option<Span>)
    requires marker != [] && from <= |s|
    ensures r.Some? ==> SearchResult(s, marker, dotAll, from, r.value)
    ensures r.None? ==> forall i, h0, h1 :: from <= i ==> !MatchSpan(s, marker, dotAll, i, h0, h1)
    decreases |s| - from
  {
    match FindFrom(s, marker, from)
    case None => None
    case Some(i) =>
      match MatchAt(s, marker, dotAll, i)
      case Some(sp) => Some(sp)
      case None =>
        NoMatchThrough(s, marker, dotAll, from, i);
        SearchFrom(s, marker, dotAll, i + 1)
  }

  /** When the first occurrence from `from` on, at `i`, does not match, no match
      starts anywhere from `from` to `i`. */
  lemma NoMatchThrough(s: string, marker: string, dotAll: bool, from: nat, i: nat)
    requires FindFrom(s, marker, from) == Some(i)
    requires forall h0, h1 :: !MatchSpan(s, marker, dotAll, i, h0, h1)
    ensures forall i', h0, h1 :: from <= i' <= i ==> !MatchSpan(s, marker, dotAll, i', h0, h1)
  {
  }

  /** `m.group(1).strip() if m else ""` for `m = re.search(marker + r"\s*(.+)", message)`,
      with `re.DOTALL` when `dotAll` holds. */
  function Field(message: string, marker: string, dotAll: bool): (r: string)
    requires marker != []
    ensures Stripped(r)
    ensures !dotAll ==> '\n' !in r
    ensures !Contains(message, marker) ==> r == ""
  {
    match SearchFrom(message, marker, dotAll, 0)
    case None => ""
    case Some(sp) =>
      var group := message[sp.g0..sp.g1];
      assert !dotAll ==> '\n' !in Strip(group) by {
        if !dotAll {
          assert forall k :: 0 <= k < |group| ==> group[k] == message[sp.g0 + k];
          StripKeepsOut(group, '\n');
        }
      }
      Strip(group)
  }

  /** The three searches, each over the whole message. */
  function Parse(message: string): (r: Analysis)
    ensures !Contains(message, CORRECTED_MARKER) ==> r.corrected == ""
    ensures !Contains(message, SCORE_MARKER) ==> r.score == ""
    ensures !Contains(message, EXPLANATION_MARKER) ==> r.explanation == ""
    ensures '\n' !in r.corrected && '\n' !in r.score
    ensures Stripped(r.corrected) && Stripped(r.score) && Stripped(r.explanation)
  {
    Analysis(Field(message, CORRECTED_MARKER, false),
             Field(message, SCORE_MARKER, false),
             Field(message, EXPLANATION_MARKER, true))
  }

  /** The search settles on the first occurrence of the marker: when the text after
      it is blank the field is empty, and otherwise group 1 starts at the first
      non-whitespace character after the marker and runs to the end of that line
      (to the end of the message under `re.DOTALL`). */
  lemma FirstMarkerDecides(message: string, marker: string, dotAll: bool, p: nat, q: nat)
    requires marker != [] && Occurs(message, marker, p)
    requires forall i :: 0 <= i < p ==> !Occurs(message, marker, i)
    requires q == SpaceEnd(message, p + |marker|)
    ensures Field(message, marker, dotAll) ==
      if q == |message| then "" else Strip(message[q..DotEnd(message, q, dotAll)])
  {
    var found := SearchFrom(message, marker, dotAll, 0);
    if q < |message| {
      MatchAfterMarker(message, marker, dotAll, p);
    }
    if found.Some? {
      var sp := found.value;
      assert p <= sp.start;
      if q == |message| {
        BlankAfterMarker(message, marker, dotAll, p, sp);
      } else {
        SearchSettles(message, marker, dotAll, p, sp);
      }
    }
  }

  /** When something follows the space run after the marker, the pattern matches
      there, with group 1 running to the end of the line (or of the message). */
  lemma MatchAfterMarker(message: string, marker: string, dotAll: bool, p: nat)
    requires Occurs(message, marker, p) && SpaceEnd(message, p + |marker|) < |message|
    ensures var q := SpaceEnd(message, p + |marker|);
      MatchSpan(message, marker, dotAll, p, q, DotEnd(message, q, dotAll))
  {
  }

  /** A match at or after a marker followed only by whitespace captures only whitespace. */
  lemma BlankAfterMarker(message: string, marker: string, dotAll: bool, p: nat, sp: Span)
    requires Occurs(message, marker, p) && SpaceEnd(message, p + |marker|) == |message|
    requires MatchSpan(message, marker, dotAll, sp.start, sp.g0, sp.g1) && p <= sp.start
    ensures Strip(message[sp.g0..sp.g1]) == ""
  {
    var a := p + |marker|;
    var tail := message[a..|message|];
    var group := message[sp.g0..sp.g1];
    assert AllSpace(tail);
    assert a <= sp.g0 && sp.g1 <= |message|;
    forall k | 0 <= k < |group|
      ensures IsSpace(group[k])
    {
      var j := sp.g0 + k - a;
      assert group[k] == message[sp.g0 + k] == tail[j];
    }
    StripAllSpace(group);
  }

  /** The leftmost, greedy match starts at the first marker and its group 1 starts
      at the first non-whitespace character after it. */
  lemma SearchSettles(message: string, marker: string, dotAll: bool, p: nat, sp: Span)
    requires Occurs(message, marker, p) && SpaceEnd(message, p + |marker|) < |message|
    requires SearchResult(message, marker, dotAll, 0, sp) && p <= sp.start
    ensures var q := SpaceEnd(message, p + |marker|);
      sp == Span(p, q, DotEnd(message, q, dotAll))
  {
    var q := SpaceEnd(message, p + |marker|);
    MatchAfterMarker(message, marker, dotAll, p);
    assert sp.start == p;
    SpaceRunBound(message, marker, dotAll, sp.start, sp.g0, sp.g1);
  }

  /** Under `re.DOTALL` group 1 runs to the end of the message, so the field is
      the stripped rest of the message after the first occurrence of the marker. */
  lemma DotAllFieldIsRest(message: string, marker: string, p: nat)
    requires marker != [] && Occurs(message, marker, p)
    requires forall i :: 0 <= i < p ==> !Occurs(message, marker, i)
    ensures Field(message, marker, true) == Strip(message[p + |marker|..])
  {
    var a := p + |marker|;
    var q := SpaceEnd(message, a);
    var f := Field(message, marker, true);
    var g := Strip(message[a..]);
    var rhs := if q == |message| then "" else Strip(message[q..DotEnd(message, q, true)]);
    FirstMarkerDecides(message, marker, true, p, q);
    assert f == rhs;
    RestAfterMarker(message, a);
    assert g == rhs;
  }

  /** Under `re.DOTALL` the text group 1 would take after a space run is all that
      follows it. */
  lemma RestAfterMarker(s: string, a: nat)
    requires a <= |s|
    ensures var q := SpaceEnd(s, a);
      Strip(s[a..]) == if q == |s| then "" else Strip(s[q..DotEnd(s, q, true)])
  {
    var q := SpaceEnd(s, a);
    StripAfterSpaceRun(s, a);
    if q < |s| {
      DotAllToEnd(s, q);
    }
  }

  lemma DotAllToEnd(s: string, q: nat)
    requires q <= |s|
    ensures Strip(s[q..DotEnd(s, q, true)]) == Strip(s[q..])
  {
    var e := DotEnd(s, q, true);
    assert e == |s|;
    assert s[q..e] == s[q..];
  }

  lemma StripAfterSpaceRun(s: string, a: nat)
    requires a <= |s|
    ensures var q := SpaceEnd(s, a);
      Strip(s[a..]) == if q == |s| then "" else Strip(s[q..])
  {
    var q := SpaceEnd(s, a);
    assert s[a..] == s[a..q] + s[q..];
    StripLeadingSpace(s[a..q], s[q..]);
    if q == |s| {
      assert s[q..] == [];
      StripAllSpace([]);
    }
  }

  /** The explanation is the stripped rest of the message after the first
      `**Explanation:**`, embedded newlines and any later sections included. */
  lemma ExplanationIsRest(message: string, p: nat)
    requires Occurs(message, EXPLANATION_MARKER, p)
    requires forall i :: 0 <= i < p ==> !Occurs(message, EXPLANATION_MARKER, i)
    ensures Parse(message).explanation == Strip(message[p + |EXPLANATION_MARKER|..])
  {
    DotAllFieldIsRest(message, EXPLANATION_MARKER, p);
  }

  /** On a line that is not blank, `\s*` stops inside the line, `.` runs to its
      end, and stripping what it captured gives the stripped line. */
  lemma LineAfterSpace(s: string, a: nat, b: nat)
    requires a <= b <= |s| && '\n' !in s[a..b] && !AllSpace(s[a..b])
    requires b == |s| || s[b] == '\n'
    ensures SpaceEnd(s, a) < b && LineEnd(s, SpaceEnd(s, a)) == b
    ensures Strip(s[SpaceEnd(s, a)..b]) == Strip(s[a..b])
  {
    SpaceStopsInLine(s, a, b);
    var q := SpaceEnd(s, a);
    LineRunsToEnd(s, a, q, b);
    StripAfterSpace(s, a, q, b);
  }

  lemma SpaceStopsInLine(s: string, a: nat, b: nat)
    requires a <= b <= |s| && !AllSpace(s[a..b])
    ensures SpaceEnd(s, a) < b
  {
    var j :| 0 <= j < b - a && !IsSpace(s[a..b][j]);
    assert s[a..b][j] == s[a + j];
    SpaceEndStops(s, a, a + j);
  }

  lemma LineRunsToEnd(s: string, a: nat, q: nat, b: nat)
    requires a <= q <= b <= |s| && '\n' !in s[a..b]
    requires b == |s| || s[b] == '\n'
    ensures LineEnd(s, q) == b
  {
    forall k | q <= k < b
      ensures s[k] != '\n'
    {
      NotInSlice(s, '\n', a, b, k);
    }
    LineEndAt(s, q, b);
  }

  lemma StripAfterSpace(s: string, a: nat, q: nat, b: nat)
    requires a <= q <= b <= |s| && AllSpace(s[a..q])
    ensures Strip(s[q..b]) == Strip(s[a..b])
  {
    assert s[a..b] == s[a..q] + s[q..b];
    StripLeadingSpace(s[a..q], s[q..b]);
  }

  /** A single-line field is the stripped text on the line after the first marker:
      whatever precedes that line (without the marker) and whatever follows it,
      other sections included and in any order, does not change it. */
  lemma LineFieldIsLine(message: string, marker: string, pre: string, t: string, rest: string)
    requires marker != [] && message == pre + marker + t + rest
    requires forall i :: 0 <= i < |pre| ==> !Occurs(message, marker, i)
    requires '\n' !in t && !AllSpace(t) && (rest == [] || rest[0] == '\n')
    ensures Field(message, marker, false) == Strip(t)
  {
    LineLayout(message, pre, marker, t, rest);
    FirstLineAt(message, marker, |pre|, |pre| + |marker| + |t|);
  }

  /** A single-line field whose marker first occurs at `p` and whose line after the
      marker, `message[p + |marker|..b]`, is not blank is that line, stripped. */
  lemma FirstLineAt(message: string, marker: string, p: nat, b: nat)
    requires marker != [] && Occurs(message, marker, p)
    requires forall i :: 0 <= i < p ==> !Occurs(message, marker, i)
    requires p + |marker| <= b <= |message|
    requires '\n' !in message[p + |marker|..b] && !AllSpace(message[p + |marker|..b])
    requires b == |message| || message[b] == '\n'
    ensures Field(message, marker, false) == Strip(message[p + |marker|..b])
  {
    var a := p + |marker|;
    var q := SpaceEnd(message, a);
    FirstMarkerDecides(message, marker, false, p, q);
    LineFieldAt(message, marker, a, q, b);
  }

  /** Where the pieces of `pre + marker + t + rest` sit in the message. */
  lemma LineLayout(message: string, pre: string, marker: string, t: string, rest: string)
    requires message == pre + marker + t + rest
    requires rest == [] || rest[0] == '\n'
    ensures Occurs(message, marker, |pre|)
    ensures message[|pre| + |marker|..|pre| + |marker| + |t|] == t
    ensures |pre| + |marker| + |t| == |message| || message[|pre| + |marker| + |t|] == '\n'
  {
    var a := |pre| + |marker|;
    assert message[|pre|..a] == marker;
    assert message[a..a + |t|] == t;
    assert a + |t| < |message| ==> message[a + |t|] == rest[0];
  }

  /** Once the first occurrence of the marker has fixed the field to the stripped run
      of non-newlines from `q`, the first non-space after `a`, and the line
      `message[a..b]` is not blank, the field is that line, stripped. */
  lemma LineFieldAt(message: string, marker: string, a: nat, q: nat, b: nat)
    requires marker != [] && a <= b <= |message| && q == SpaceEnd(message, a)
    requires '\n' !in message[a..b] && !AllSpace(message[a..b])
    requires b == |message| || message[b] == '\n'
    requires Field(message, marker, false) ==
      if q == |message| then "" else Strip(message[q..DotEnd(message, q, false)])
    ensures Field(message, marker, false) == Strip(message[a..b])
  {
    LineAfterSpace(message, a, b);
  }

  /** No occurrence of a newline-free marker starts before a newline unless it
      lies wholly in the text before that newline. */
  lemma NoneBeforeNewline(x: string, y: string, m: string)
    requires m != [] && '\n' !in m && !Contains(x, m)
    ensures forall i :: 0 <= i <= |x| ==> !Occurs(x + "\n" + y, m, i)
  {
    var s := x + "\n" + y;
    forall i | 0 <= i <= |x|
      ensures !Occurs(s, m, i)
    {
      if i + |m| <= |s| {
      if i + |m| <= |x| {
        assert s[i..i + |m|] == x[i..i + |m|];
        assert !Occurs(x, m, i);
      } else {
        assert s[i..i + |m|][|x| - i] == '\n';
      }
      }
    }
  }

  /** A newline-free marker cannot occur across a line break. */
  lemma NoneAcrossNewline(x: string, y: string, m: string)
    requires m != [] && '\n' !in m && !Contains(x, m) && !Contains(y, m)
    ensures !Contains(x + "\n" + y, m)
  {
    var s := x + "\n" + y;
    NoneBeforeNewline(x, y, m);
    forall i | |x| < i && i + |m| <= |s|
      ensures !Occurs(s, m, i)
    {
      var j := i - |x| - 1;
      var here, there := s[i..i + |m|], y[j..j + |m|];
      forall k | 0 <= k < |m|
        ensures here[k] == there[k]
      {
        assert here[k] == s[i + k] == y[j + k];
      }
      assert here == there;
      assert !Occurs(y, m, j);
    }
  }

  /** A marker opening with `**` cannot start inside a header that ends in a space
      and lacks the marker's third character, so it occurs in header + text only
      if it occurs in the text. */
  lemma NoneAfterHeader(h: string, c: string, m: string)
    requires |m| >= 3 && m[0] == '*' && m[1] == '*' && m[2] !in h
    requires |h| > 0 && h[|h| - 1] == ' ' && !Contains(c, m)
    ensures !Contains(h + c, m)
  {
    var s := h + c;
    forall i | 0 <= i && i + |m| <= |s|
      ensures !Occurs(s, m, i)
    {
      if i == |h| - 1 {
        assert s[i..i + |m|][0] == ' ';
      } else if i == |h| - 2 {
        assert s[i..i + |m|][1] == ' ';
      } else if i < |h| {
        assert s[i..i + |m|][2] == h[i + 2];
      } else {
        assert s[i..i + |m|] == c[i - |h|..i - |h| + |m|];
        assert !Occurs(c, m, i - |h|);
      }
    }
  }

  /** One line of the output format the system prompt asks for: the marker, a
      space, then the value. */
  function Section(marker: string, value: string): string {
    marker + " " + value
  }

  /** A reply written exactly in the requested format. */
  function Render(corrected: string, score: string, explanation: string): string {
    Section(CORRECTED_MARKER, corrected) + "\n" + Section(SCORE_MARKER, score) + "\n"
    + Section(EXPLANATION_MARKER, explanation)
  }

  lemma NotBlankAfterSpace(c: string)
    requires !AllSpace(c)
    ensures !AllSpace(" " + c) && Strip(" " + c) == Strip(c)
  {
    var j :| 0 <= j < |c| && !IsSpace(c[j]);
    assert (" " + c)[j + 1] == c[j];
    StripLeadingSpace(" ", c);
  }

  /** A section whose value lacks a `**`-marker lacks it altogether, provided the
      marker's third character is not in the section's own marker. */
  lemma SectionLacks(marker: string, v: string, m: string)
    requires |m| >= 3 && m[0] == '*' && m[1] == '*' && m[2] !in marker && m[2] != ' '
    requires !Contains(v, m)
    ensures !Contains(Section(marker, v), m)
  {
    var h := marker + " ";
    assert h[|h| - 1] == ' ';
    assert m[2] !in h;
    assert Section(marker, v) == h + v;
    NoneAfterHeader(h, v, m);
  }

  /** Three lines regrouped around the middle one. */
  lemma MiddleLine(x: string, y: string, z: string)
    ensures x + "\n" + y + "\n" + z == x + "\n" + (y + ("\n" + z))
  {
  }

  /** A single-line section opening the message is read back. */
  lemma FirstLineField(marker: string, v: string, rest: string)
    requires marker != [] && '\n' !in v && !AllSpace(v) && (rest == [] || rest[0] == '\n')
    ensures Field(Section(marker, v) + rest, marker, false) == Strip(v)
  {
    var msg := Section(marker, v) + rest;
    assert msg == [] + marker + (" " + v) + rest;
    NotBlankAfterSpace(v);
    LineFieldIsLine(msg, marker, [], " " + v, rest);
  }

  /** A single-line section after a first line without its marker is read back. */
  lemma SecondLineField(first: string, marker: string, v: string, rest: string)
    requires marker != [] && '\n' !in marker && !Contains(first, marker)
    requires '\n' !in v && !AllSpace(v) && (rest == [] || rest[0] == '\n')
    ensures Field(first + "\n" + (Section(marker, v) + rest), marker, false) == Strip(v)
  {
    var tail := Section(marker, v) + rest;
    var msg := first + "\n" + tail;
    NoneBeforeNewline(first, tail, marker);
    SectionAfterLine(first, marker, v, rest);
    NotBlankAfterSpace(v);
    LineFieldIsLine(msg, marker, first + "\n", " " + v, rest);
  }

  /** How a section on the second line splits around its marker. */
  lemma SectionAfterLine(first: string, marker: string, v: string, rest: string)
    ensures first + "\n" + (Section(marker, v) + rest) == (first + "\n") + marker + (" " + v) + rest
  {
    assert Section(marker, v) == marker + (" " + v);
  }

  /** The explanation closing three lines is read back when neither line before it
      carries its marker. */
  lemma ThirdSection(first: string, second: string, e: string)
    requires !Contains(first, EXPLANATION_MARKER) && !Contains(second, EXPLANATION_MARKER)
    ensures Field(first + "\n" + second + "\n" + Section(EXPLANATION_MARKER, e), EXPLANATION_MARKER, true)
      == Strip(e)
  {
    NoneAcrossNewline(first, second, EXPLANATION_MARKER);
    ExplanationAfter(first + "\n" + second, e);
  }

  lemma RenderCorrected(c: string, s: string, e: string)
    requires '\n' !in c && !AllSpace(c)
    ensures Field(Render(c, s, e), CORRECTED_MARKER, false) == Strip(c)
  {
    var rest := "\n" + Section(SCORE_MARKER, s) + "\n" + Section(EXPLANATION_MARKER, e);
    assert Render(c, s, e) == Section(CORRECTED_MARKER, c) + rest;
    FirstLineField(CORRECTED_MARKER, c, rest);
  }

  lemma RenderScore(c: string, s: string, e: string)
    requires '\n' !in s && !AllSpace(s) && !Contains(c, SCORE_MARKER)
    ensures Field(Render(c, s, e), SCORE_MARKER, false) == Strip(s)
  {
    var first := Section(CORRECTED_MARKER, c);
    var rest := "\n" + Section(EXPLANATION_MARKER, e);
    SectionLacks(CORRECTED_MARKER, c, SCORE_MARKER);
    MiddleLine(first, Section(SCORE_MARKER, s), Section(EXPLANATION_MARKER, e));
    SecondLineField(first, SCORE_MARKER, s, rest);
  }

  lemma RenderExplanation(c: string, s: string, e: string)
    requires !Contains(c, EXPLANATION_MARKER) && !Contains(s, EXPLANATION_MARKER)
    ensures Field(Render(c, s, e), EXPLANATION_MARKER, true) == Strip(e)
  {
    SectionLacks(CORRECTED_MARKER, c, EXPLANATION_MARKER);
    SectionLacks(SCORE_MARKER, s, EXPLANATION_MARKER);
    ThirdSection(Section(CORRECTED_MARKER, c), Section(SCORE_MARKER, s), e);
  }

  lemma ExplanationAfter(before: string, e: string)
    requires !Contains(before, EXPLANATION_MARKER)
    ensures Field(before + "\n" + Section(EXPLANATION_MARKER, e), EXPLANATION_MARKER, true) == Strip(e)
  {
    var last := Section(EXPLANATION_MARKER, e);
    var msg := before + "\n" + last;
    NoneBeforeNewline(before, last, EXPLANATION_MARKER);
    var p := |before| + 1;
    assert msg[p..p + |EXPLANATION_MARKER|] == EXPLANATION_MARKER;
    assert msg[p + |EXPLANATION_MARKER|..] == " " + e;
    DotAllFieldIsRest(msg, EXPLANATION_MARKER, p);
    SpacedValue(msg, p + |EXPLANATION_MARKER|, e);
  }

  lemma SpacedValue(msg: string, k: nat, e: string)
    requires k <= |msg| && msg[k..] == " " + e
    ensures Strip(msg[k..]) == Strip(e)
  {
    StripLeadingSpace(" ", e);
  }

  /** A reply in the requested format parses back to its three values, stripped,
      provided the two single-line values are not blank and no value carries a
      marker that is searched for after it. */
  lemma ParseRender(c: string, s: string, e: string)
    requires '\n' !in c && '\n' !in s && !AllSpace(c) && !AllSpace(s)
    requires !Contains(c, SCORE_MARKER) && !Contains(c, EXPLANATION_MARKER)
    requires !Contains(s, EXPLANATION_MARKER)
    ensures Parse(Render(c, s, e)) == Analysis(Strip(c), Strip(s), Strip(e))
  {
    RenderCorrected(c, s, e);
    RenderScore(c, s, e);
    RenderExplanation(c, s, e);
  }

  /** The same reply with the score line before the corrected-sentence line. */
  function RenderScoreFirst(corrected: string, score: string, explanation: string): string {
    Section(SCORE_MARKER, score) + "\n" + Section(CORRECTED_MARKER, corrected) + "\n"
    + Section(EXPLANATION_MARKER, explanation)
  }

  lemma ScoreFirstScore(c: string, s: string, e: string)
    requires '\n' !in s && !AllSpace(s)
    ensures Field(RenderScoreFirst(c, s, e), SCORE_MARKER, false) == Strip(s)
  {
    var rest := "\n" + Section(CORRECTED_MARKER, c) + "\n" + Section(EXPLANATION_MARKER, e);
    assert RenderScoreFirst(c, s, e) == Section(SCORE_MARKER, s) + rest;
    FirstLineField(SCORE_MARKER, s, rest);
  }

  lemma ScoreFirstCorrected(c: string, s: string, e: string)
    requires '\n' !in c && !AllSpace(c) && !Contains(s, CORRECTED_MARKER)
    ensures Field(RenderScoreFirst(c, s, e), CORRECTED_MARKER, false) == Strip(c)
  {
    var first := Section(SCORE_MARKER, s);
    var rest := "\n" + Section(EXPLANATION_MARKER, e);
    SectionLacks(SCORE_MARKER, s, CORRECTED_MARKER);
    MiddleLine(first, Section(CORRECTED_MARKER, c), Section(EXPLANATION_MARKER, e));
    SecondLineField(first, CORRECTED_MARKER, c, rest);
  }

  lemma ScoreFirstExplanation(c: string, s: string, e: string)
    requires !Contains(c, EXPLANATION_MARKER) && !Contains(s, EXPLANATION_MARKER)
    ensures Field(RenderScoreFirst(c, s, e), EXPLANATION_MARKER, true) == Strip(e)
  {
    SectionLacks(SCORE_MARKER, s, EXPLANATION_MARKER);
    SectionLacks(CORRECTED_MARKER, c, EXPLANATION_MARKER);
    ThirdSection(Section(SCORE_MARKER, s), Section(CORRECTED_MARKER, c), e);
  }

  /** Each field is searched for over the whole reply, so the two single-line
      sections may come in either order. */
  lemma SectionOrderFree(c: string, s: string, e: string)
    requires '\n' !in c && '\n' !in s && !AllSpace(c) && !AllSpace(s)
    requires !Contains(c, SCORE_MARKER) && !Contains(s, CORRECTED_MARKER)
    requires !Contains(c, EXPLANATION_MARKER) && !Contains(s, EXPLANATION_MARKER)
    ensures Parse(RenderScoreFirst(c, s, e)) == Parse(Render(c, s, e))
  {
    ParseRender(c, s, e);
    ScoreFirstScore(c, s, e);
    ScoreFirstCorrected(c, s, e);
    ScoreFirstExplanation(c, s, e);
  }

  /** Why the analysis raises instead of returning fields. */
  datatype AnalyzeError =
    | RequestError(detail: string)   // `httpx.RequestError` from the post
    | StatusError(status: int)       // `raise_for_status` on a status outside 2xx
    | MissingChoices                 // `KeyError` on `data["choices"]`
    | NoChoices                      // `IndexError` on `data["choices"][0]`

  /** `analyze_sentence_with_groq` once the reply is in: check the status, take the
      first choice's content and parse it. */
  function Analyze(reply: Upstream): (r: Result<Analysis, AnalyzeError>)
    ensures r.Success? <==> reply.Responded? && 200 <= reply.status < 300 && HasChoice(reply.body)
    ensures r.Success? ==> r.value == Parse(FirstChoice(reply.body))
    ensures reply.RequestFailed? ==> r == Failure(RequestError(reply.detail))
    ensures reply.Responded? && !(200 <= reply.status < 300) ==> r == Failure(StatusError(reply.status))
    ensures reply.Responded? && 200 <= reply.status < 300 && reply.body.choices.None? ==>
      r == Failure(MissingChoices)
    ensures reply.Responded? && 200 <= reply.status < 300 && reply.body.choices == Some([]) ==>
      r == Failure(NoChoices)
  {
    match reply
    case RequestFailed(detail) => Failure(RequestError(detail))
    case Responded(status, body) =>
      if !(200 <= status < 300) then Failure(StatusError(status))
      else match body.choices
        case None => Failure(MissingChoices)
        case Some(contents) =>
          if |contents| == 0 then Failure(NoChoices) else Success(Parse(contents[0]))
  }
}
