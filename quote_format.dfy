/**
 * `formatQuoteText` of the egg-word home page: it lays out a generated quote for
 * display by running four string rewrites in sequence.
 *
 *   1. break after every sentence-ending mark (。！？) that is not at the end of
 *      the text, swallowing the full-width spaces that follow it;
 *   2. break after a 。 that is directly followed by a conjunction;
 *   3. collapse every run of line feeds to one;
 *   4. trim, in the sense of ECMAScript's `String.prototype.trim`.
 *
 * The empty text and the placeholder message are returned untouched.
 *
 * Each global `replace` of the source is a left-to-right scan: at the current
 * position a step either matches (and emits the replacement) or copies one
 * character, then the scan goes on after what the step consumed.
 */
module QuoteFormat {
  import opened JsText

  /** The message shown before anything has been generated. */
  const Placeholder: string := "愚痴や悩みを入力して、エッグさんに相談してみましょう"

  /** U+3000 IDEOGRAPHIC SPACE, the full-width space. */
  const FullWidthSpace: char := '\U{3000}'

  /** The conjunctions of rewrite 2, in the order its alternation tries them. */
  const Conjunctions: seq<string> := ["でも", "しかし", "けれども", "それでも", "そして"]

  /** The sentence-ending marks 。 ！ ？ (full-width). */
  predicate IsSentenceEnd(c: char) {
    c == '。' || c == '！' || c == '？'
  }

  /** `k` copies of `c`. */
  function Repeat(c: char, k: nat): (r: string)
    ensures |r| == k
    ensures forall i :: 0 <= i < k ==> r[i] == c
  {
    if k == 0 then [] else [c] + Repeat(c, k - 1)
  }

  lemma AppendAssoc(a: string, b: string, c: string)
    ensures a + (b + c) == (a + b) + c
  {
  }

  // ---------------------------------------------------------------------------
  // Layout properties of the result
  // ---------------------------------------------------------------------------

  // Each predicate speaks of adjacent positions `i` and `j == i + 1` through two
  // bound variables, so that instantiating it never creates a new index term.

  /** Every sentence-ending mark is the last character or is followed by a line feed. */
  ghost predicate MarksBroken(s: string) {
    forall i, j :: 0 <= i && j == i + 1 && j < |s| && IsSentenceEnd(s[i]) ==> s[j] == '\n'
  }

  /** No two line feeds are adjacent, so there is no blank line. */
  ghost predicate NoDoubleNewline(s: string) {
    forall i, j :: 0 <= i && j == i + 1 && j < |s| && s[i] == '\n' ==> s[j] != '\n'
  }

  /** Every line feed directly follows a sentence-ending mark. */
  ghost predicate BreaksFollowMarks(s: string) {
    (|s| > 0 ==> s[0] != '\n')
    && forall i, j :: 0 <= i && j == i + 1 && j < |s| && s[j] == '\n' ==> IsSentenceEnd(s[i])
  }

  lemma MarksBrokenConcat(a: string, b: string)
    requires MarksBroken(a) && MarksBroken(b)
    requires a != [] && b != [] && IsSentenceEnd(a[|a| - 1]) ==> b[0] == '\n'
    ensures MarksBroken(a + b)
  {
    var s := a + b;
    forall i, j | 0 <= i && j == i + 1 && j < |s| && IsSentenceEnd(s[i])
      ensures s[j] == '\n'
    {
      if j < |a| {
        assert s[i] == a[i] && s[j] == a[j];
      } else if i >= |a| {
        assert s[i] == b[i - |a|] && s[j] == b[j - |a|];
      }
    }
  }

  lemma NoDoubleNewlineConcat(a: string, b: string)
    requires NoDoubleNewline(a) && NoDoubleNewline(b)
    requires a != [] && b != [] && a[|a| - 1] == '\n' ==> b[0] != '\n'
    ensures NoDoubleNewline(a + b)
  {
    var s := a + b;
    forall i, j | 0 <= i && j == i + 1 && j < |s| && s[i] == '\n'
      ensures s[j] != '\n'
    {
      if j < |a| {
        assert s[i] == a[i] && s[j] == a[j];
      } else if i >= |a| {
        assert s[i] == b[i - |a|] && s[j] == b[j - |a|];
      }
    }
  }

  lemma BreaksFollowMarksConcat(a: string, b: string)
    requires BreaksFollowMarks(a) && BreaksFollowMarks(b)
    ensures BreaksFollowMarks(a + b)
  {
    var s := a + b;
    forall i, j | 0 <= i && j == i + 1 && j < |s| && s[j] == '\n'
      ensures IsSentenceEnd(s[i])
    {
      if j < |a| {
        assert s[i] == a[i] && s[j] == a[j];
      } else if i >= |a| {
        assert s[i] == b[i - |a|] && s[j] == b[j - |a|];
      }
    }
  }

  /** The three layout predicates hold of every contiguous piece of a text. */
  lemma LayoutOfSlice(s: string, a: nat, b: nat)
    requires a <= b <= |s|
    ensures MarksBroken(s) ==> MarksBroken(s[a..b])
    ensures NoDoubleNewline(s) ==> NoDoubleNewline(s[a..b])
    ensures BreaksFollowMarks(s) && (a < b ==> s[a] != '\n') ==> BreaksFollowMarks(s[a..b])
  {
    var r := s[a..b];
    if MarksBroken(s) {
      forall i, j | 0 <= i && j == i + 1 && j < |r| && IsSentenceEnd(r[i])
        ensures r[j] == '\n'
      {
        assert r[i] == s[a + i] && r[j] == s[a + j];
      }
    }
    if NoDoubleNewline(s) {
      forall i, j | 0 <= i && j == i + 1 && j < |r| && r[i] == '\n'
        ensures r[j] != '\n'
      {
        assert r[i] == s[a + i] && r[j] == s[a + j];
      }
    }
    if BreaksFollowMarks(s) && (a < b ==> s[a] != '\n') {
      forall i, j | 0 <= i && j == i + 1 && j < |r| && r[j] == '\n'
        ensures IsSentenceEnd(r[i])
      {
        assert r[i] == s[a + i] && r[j] == s[a + j];
      }
    }
  }

  /** A line feed that follows a mark is not itself followed by a line feed. */
  lemma BreaksFollowMarksNoDouble(s: string)
    requires BreaksFollowMarks(s)
    ensures NoDoubleNewline(s)
  {
  }

  // ---------------------------------------------------------------------------
  // Greedy runs
  // ---------------------------------------------------------------------------

  /** The length of the longest run of `c` at the start of `s`, as a greedy `c*` matches. */
  function RunLength(s: string, c: char): (n: nat)
    ensures n <= |s|
    ensures forall k :: 0 <= k < n ==> s[k] == c
    ensures n < |s| ==> s[n] != c
  {
    if s != [] && s[0] == c then 1 + RunLength(s[1..], c) else 0
  }

  /** A run of `c` followed by something else is measured exactly. */
  lemma {:induction false} RunLengthOfRun(r: string, t: string, c: char)
    requires forall i :: 0 <= i < |r| ==> r[i] == c
    requires t == [] || t[0] != c
    ensures RunLength(r + t, c) == |r|
  {
    if r != [] {
      assert (r + t)[1..] == r[1..] + t;
      RunLengthOfRun(r[1..], t, c);
    } else {
      assert r + t == t;
    }
  }

  /** A run that stops inside `x` is not lengthened by what comes after `x`. */
  lemma {:induction false} RunLengthPrefix(x: string, y: string, c: char)
    requires RunLength(x, c) < |x|
    ensures RunLength(x + y, c) == RunLength(x, c)
  {
    if x[0] == c {
      assert (x + y)[1..] == x[1..] + y;
      RunLengthPrefix(x[1..], y, c);
    }
  }

  // ---------------------------------------------------------------------------
  // What a rewrite may touch
  // ---------------------------------------------------------------------------

  /** The characters of `s` that are not in `gone`, in order. */
  function Erase(s: string, gone: set<char>): (r: string)
    ensures |r| <= |s|
  {
    if s == [] then []
    else (if s[0] in gone then [] else [s[0]]) + Erase(s[1..], gone)
  }

  lemma {:induction false} EraseConcat(a: string, b: string, gone: set<char>)
    ensures Erase(a + b, gone) == Erase(a, gone) + Erase(b, gone)
  {
    if a == [] {
      assert a + b == b;
    } else {
      assert (a + b)[1..] == a[1..] + b;
      EraseConcat(a[1..], b, gone);
    }
  }

  lemma {:induction false} EraseOfGone(s: string, gone: set<char>)
    requires forall k :: 0 <= k < |s| ==> s[k] in gone
    ensures Erase(s, gone) == []
  {
    if s != [] {
      EraseOfGone(s[1..], gone);
    }
  }

  lemma EraseSplit(s: string, k: nat, gone: set<char>)
    requires k <= |s|
    ensures Erase(s, gone) == Erase(s[..k], gone) + Erase(s[k..], gone)
  {
    assert s == s[..k] + s[k..];
    EraseConcat(s[..k], s[k..], gone);
  }

  /** A line feed put after `c` in place of characters that are all erased leaves nothing behind. */
  lemma EraseReplacedBreak(c: char, w: string, gone: set<char>)
    requires '\n' in gone
    requires forall k :: 0 <= k < |w| ==> w[k] in gone
    ensures Erase([c, '\n'], gone) == Erase([c] + w, gone)
  {
    assert [c, '\n'] == [c] + ['\n'];
    EraseConcat([c], ['\n'], gone);
    EraseOfGone(['\n'], gone);
    EraseConcat([c], w, gone);
    EraseOfGone(w, gone);
  }

  // ---------------------------------------------------------------------------
  // Rewrite 1: text.replace(/(。|！|？)(　*)(?!$)/g, punct + '\n')
  // ---------------------------------------------------------------------------

  /**
   * One step of rewrite 1 at the start of `s`: the text emitted and the number
   * of characters consumed. At a mark the greedy `　*` takes the whole run of
   * full-width spaces, and the lookahead `(?!$)` needs something after the match:
   * if the run stops before the end of the text the whole run is replaced; if it
   * reaches the end, the regex backtracks by one space, which then survives; a
   * mark that is itself the last character does not match and is copied.
   */
  function BreakStep(s: string): (st: (string, nat))
    requires s != []
    ensures 0 < st.1 <= |s|
    ensures st.0 == [s[0]] || (IsSentenceEnd(s[0]) && st.0 == [s[0], '\n'])
    ensures |st.0| == 2 <==> IsSentenceEnd(s[0]) && |s| > 1
    ensures forall i :: 1 <= i < st.1 ==> s[i] == FullWidthSpace
  {
    if IsSentenceEnd(s[0]) then
      var n := RunLength(s[1..], FullWidthSpace);
      if 1 + n < |s| then ([s[0], '\n'], 1 + n)
      else if n > 0 then ([s[0], '\n'], n)
      else ([s[0]], 1)
    else ([s[0]], 1)
  }

  function BreakAfterMarks(s: string): (r: string)
    ensures s != [] ==> r != [] && r[0] == s[0]
    decreases |s|
  {
    if s == [] then []
    else
      var out, k := BreakStep(s).0, BreakStep(s).1;
      out + BreakAfterMarks(s[k..])
  }

  /** `BreakAfterMarks` is the first step followed by the scan of the rest. */
  lemma BreakUnfold(s: string)
    requires s != []
    ensures BreakAfterMarks(s) == BreakStep(s).0 + BreakAfterMarks(s[BreakStep(s).1..])
  {
  }

  /** What one step emits has the layout, and the same visible text as what it consumed. */
  lemma BreakStepFacts(s: string)
    requires s != []
    ensures var out, k := BreakStep(s).0, BreakStep(s).1;
      && MarksBroken(out)
      && (IsSentenceEnd(out[|out| - 1]) ==> k == |s|)
      && Visible(out) == Visible(s[..k])
      && ('\n' !in s ==> BreaksFollowMarks(out))
  {
    var out, k := BreakStep(s).0, BreakStep(s).1;
    if IsSentenceEnd(s[0]) && k > 1 {
      assert s[..k] == [s[0]] + s[1..k];
      assert AllBlank(s[1..k]);
      VisibleOfBlank(s[1..k]);
      VisibleConcat([s[0]], s[1..k]);
      VisibleCons(s[0], ['\n']);
      VisibleCons('\n', []);
    } else if IsSentenceEnd(s[0]) && |s| > 1 {
      assert k == 1 && out == [s[0], '\n'];
      assert s[..k] == [s[0]];
      VisibleCons(s[0], ['\n']);
      VisibleCons('\n', []);
    } else {
      assert s[..k] == [s[0]];
    }
  }

  lemma BreakStepErase(s: string)
    requires s != []
    ensures var out, k := BreakStep(s).0, BreakStep(s).1;
      Erase(out, {'\n', FullWidthSpace}) == Erase(s[..k], {'\n', FullWidthSpace})
  {
    var out, k := BreakStep(s).0, BreakStep(s).1;
    assert s[..k] == [s[0]] + s[1..k];
    if |out| == 2 {
      EraseReplacedBreak(s[0], s[1..k], {'\n', FullWidthSpace});
    } else {
      assert k == 1 && s[..k] == out;
    }
  }

  /**
   * Rewrite 1 changes nothing but line feeds and full-width spaces: with both
   * erased, input and output are the same text.
   */
  lemma {:induction false} BreakAfterMarksOnlyBreaks(s: string)
    ensures Erase(BreakAfterMarks(s), {'\n', FullWidthSpace}) == Erase(s, {'\n', FullWidthSpace})
  {
    if s != [] {
      var out, k := BreakStep(s).0, BreakStep(s).1;
      BreakUnfold(s);
      BreakStepErase(s);
      BreakAfterMarksOnlyBreaks(s[k..]);
      EraseConcat(out, BreakAfterMarks(s[k..]), {'\n', FullWidthSpace});
      EraseSplit(s, k, {'\n', FullWidthSpace});
    }
  }

  /** After rewrite 1 every mark is the last character or is followed by a line feed. */
  lemma {:induction false} BreakAfterMarksBreaks(s: string)
    ensures MarksBroken(BreakAfterMarks(s))
  {
    if s != [] {
      var out, k := BreakStep(s).0, BreakStep(s).1;
      BreakStepFacts(s);
      BreakAfterMarksBreaks(s[k..]);
      MarksBrokenConcat(out, BreakAfterMarks(s[k..]));
    }
  }

  /** Rewrite 1 keeps the visible text. */
  lemma {:induction false} BreakAfterMarksVisible(s: string)
    ensures Visible(BreakAfterMarks(s)) == Visible(s)
  {
    if s != [] {
      var out, k := BreakStep(s).0, BreakStep(s).1;
      BreakUnfold(s);
      BreakStepFacts(s);
      BreakAfterMarksVisible(s[k..]);
      VisibleConcat(out, BreakAfterMarks(s[k..]));
      VisibleSplit(s, k);
    }
  }

  /** On a text without line feeds, rewrite 1 puts line feeds only right after marks. */
  lemma {:induction false} BreakAfterMarksPlacesBreaks(s: string)
    requires '\n' !in s
    ensures BreaksFollowMarks(BreakAfterMarks(s))
  {
    if s != [] {
      var out, k := BreakStep(s).0, BreakStep(s).1;
      BreakStepFacts(s);
      assert '\n' !in s[k..];
      BreakAfterMarksPlacesBreaks(s[k..]);
      BreaksFollowMarksConcat(out, BreakAfterMarks(s[k..]));
    }
  }

  /** The `(?!$)` lookahead: a text that ends with a mark still ends with it after rewrite 1. */
  lemma {:induction false} BreakAfterMarksKeepsFinalMark(s: string)
    requires s != [] && IsSentenceEnd(s[|s| - 1])
    ensures var r := BreakAfterMarks(s); r != [] && r[|r| - 1] == s[|s| - 1]
  {
    var out, k := BreakStep(s).0, BreakStep(s).1;
    var rest := s[k..];
    assert BreakAfterMarks(s) == out + BreakAfterMarks(rest);
    if k < |s| {
      assert rest[|rest| - 1] == s[|s| - 1];
      BreakAfterMarksKeepsFinalMark(rest);
    } else {
      assert out == [s[0]] && |s| == 1;
    }
  }

  /** Rewrite 1 leaves a text without marks as it is. */
  lemma {:induction false} BreakAfterMarksNoMarks(s: string)
    requires forall k :: 0 <= k < |s| ==> !IsSentenceEnd(s[k])
    ensures BreakAfterMarks(s) == s
  {
    if s != [] {
      BreakAfterMarksNoMarks(s[1..]);
      assert s == [s[0]] + s[1..];
    }
  }

  /**
   * A scan position right after a character that is neither a mark nor a
   * full-width space is never inside a match, so rewrite 1 works piecewise there.
   */
  lemma {:induction false} BreakAfterMarksConcat(p: string, s: string)
    requires p == [] || (!IsSentenceEnd(p[|p| - 1]) && p[|p| - 1] != FullWidthSpace)
    ensures BreakAfterMarks(p + s) == BreakAfterMarks(p) + BreakAfterMarks(s)
  {
    var ps := p + s;
    if p == [] {
      assert ps == s;
    } else {
      var out, k := BreakStep(p).0, BreakStep(p).1;
      assert ps[0] == p[0] && ps[1..] == p[1..] + s;
      if IsSentenceEnd(p[0]) {
        // the run of spaces stops inside p, before its last character
        assert RunLength(p[1..], FullWidthSpace) < |p| - 1;
        RunLengthPrefix(p[1..], s, FullWidthSpace);
      }
      assert BreakStep(ps) == (out, k);
      assert ps[k..] == p[k..] + s;
      BreakAfterMarksConcat(p[k..], s);
      AppendAssoc(out, BreakAfterMarks(p[k..]), BreakAfterMarks(s));
    }
  }

  /**
   * The full-width spaces after a mark that has more text after them are all
   * swallowed: the mark is followed by a line feed and the text goes on.
   */
  lemma SpacesAfterMarkSwallowed(p: string, m: char, k: nat, t: string)
    requires p == [] || (!IsSentenceEnd(p[|p| - 1]) && p[|p| - 1] != FullWidthSpace)
    requires IsSentenceEnd(m)
    requires t != [] && t[0] != FullWidthSpace
    ensures BreakAfterMarks(p + [m] + Repeat(FullWidthSpace, k) + t)
         == BreakAfterMarks(p) + [m, '\n'] + BreakAfterMarks(t)
  {
    var r := Repeat(FullWidthSpace, k);
    var s := [m] + r + t;
    assert p + [m] + r + t == p + s;
    BreakAfterMarksConcat(p, s);
    MarkThenText(m, r, t);
    AppendAssoc(BreakAfterMarks(p), [m, '\n'], BreakAfterMarks(t));
  }

  lemma MarkThenText(m: char, r: string, t: string)
    requires IsSentenceEnd(m)
    requires forall i :: 0 <= i < |r| ==> r[i] == FullWidthSpace
    requires t != [] && t[0] != FullWidthSpace
    ensures BreakAfterMarks([m] + r + t) == [m, '\n'] + BreakAfterMarks(t)
  {
    var s := [m] + r + t;
    assert s[1..] == r + t;
    RunLengthOfRun(r, t, FullWidthSpace);
    assert s[1 + |r|..] == t;
  }

  /**
   * The backtracking of `　*` before `(?!$)`: a mark followed by full-width spaces
   * up to the end of the text is broken, and exactly one space survives.
   */
  lemma TrailingSpacesBacktrack(p: string, m: char, k: nat)
    requires p == [] || (!IsSentenceEnd(p[|p| - 1]) && p[|p| - 1] != FullWidthSpace)
    requires IsSentenceEnd(m) && k > 0
    ensures BreakAfterMarks(p + [m] + Repeat(FullWidthSpace, k))
         == BreakAfterMarks(p) + [m, '\n', FullWidthSpace]
  {
    var r := Repeat(FullWidthSpace, k);
    var s := [m] + r;
    AppendAssoc(p, [m], r);
    BreakAfterMarksConcat(p, s);
    MarkThenSpaces(m, r);
    AppendAssoc(BreakAfterMarks(p), [m, '\n'], [FullWidthSpace]);
  }

  lemma MarkThenSpaces(m: char, r: string)
    requires IsSentenceEnd(m)
    requires r != [] && forall i :: 0 <= i < |r| ==> r[i] == FullWidthSpace
    ensures BreakAfterMarks([m] + r) == [m, '\n', FullWidthSpace]
  {
    var s := [m] + r;
    assert s[1..] == r + [];
    RunLengthOfRun(r, [], FullWidthSpace);
    assert s[|r|..] == [FullWidthSpace];
    assert BreakAfterMarks([FullWidthSpace]) == [FullWidthSpace] + BreakAfterMarks([]);
  }

  /** A mark at the very end of the text gets no line feed. */
  lemma FinalMarkUnbroken(p: string, m: char)
    requires p == [] || (!IsSentenceEnd(p[|p| - 1]) && p[|p| - 1] != FullWidthSpace)
    requires IsSentenceEnd(m)
    ensures BreakAfterMarks(p + [m]) == BreakAfterMarks(p) + [m]
  {
    assert BreakAfterMarks([m]) == [m] by {
      assert BreakStep([m]).0 == [m] && BreakStep([m]).1 == 1;
      BreakUnfold([m]);
      assert [m][1..] == [];
    }
    BreakAfterMarksConcat(p, [m]);
  }

  // ---------------------------------------------------------------------------
  // Rewrite 2: formatted.replace(/(。でも|。しかし|。けれども|。それでも|。そして)/g,
  //                              match => match.replace('。', '。\n'))
  // ---------------------------------------------------------------------------

  /** The length of the first conjunction of the alternation that `s` starts with, or 0. */
  function ConjunctionLength(s: string): (n: nat)
    ensures n <= |s|
    ensures n > 0 ==> s[..n] in Conjunctions
    ensures n == 0 ==> forall w :: w in Conjunctions ==> !(w <= s)
  {
    if Conjunctions[0] <= s then assert s[..2] == Conjunctions[0]; 2
    else if Conjunctions[1] <= s then assert s[..3] == Conjunctions[1]; 3
    else if Conjunctions[2] <= s then assert s[..4] == Conjunctions[2]; 4
    else if Conjunctions[3] <= s then assert s[..4] == Conjunctions[3]; 4
    else if Conjunctions[4] <= s then assert s[..3] == Conjunctions[4]; 3
    else 0
  }

  /** No conjunction starts with a line feed. */
  lemma ConjunctionNotAtBreak(s: string)
    requires s == [] || s[0] == '\n'
    ensures ConjunctionLength(s) == 0
  {
  }

  /**
   * One step of rewrite 2: a 。 followed by a conjunction is a match, replaced by
   * itself with a line feed after the 。; anything else is copied.
   */
  function ConjunctionStep(s: string): (st: (string, nat))
    requires s != []
    ensures 0 < st.1 <= |s|
    ensures st.1 == 1 ==> st.0 == [s[0]]
    ensures st.1 > 1 ==> s[0] == '。' && s[1..st.1] in Conjunctions && st.0 == ['。', '\n'] + s[1..st.1]
    ensures forall i :: 0 <= i < |Conjunctions| && s[0] == '。' && Conjunctions[i] <= s[1..] ==> st.1 > 1
  {
    if s[0] == '。' && ConjunctionLength(s[1..]) > 0 then
      var n := ConjunctionLength(s[1..]);
      assert s[1..][..n] == s[1..1 + n];
      (['。', '\n'] + s[1..1 + n], 1 + n)
    else ([s[0]], 1)
  }

  function RewriteConjunctions(s: string): (r: string)
    ensures s != [] ==> r != [] && r[0] == s[0]
    decreases |s|
  {
    if s == [] then []
    else
      var out, k := ConjunctionStep(s).0, ConjunctionStep(s).1;
      out + RewriteConjunctions(s[k..])
  }

  /** `RewriteConjunctions` is the first step followed by the scan of the rest. */
  lemma ConjunctionUnfold(s: string)
    requires s != []
    ensures RewriteConjunctions(s) == ConjunctionStep(s).0 + RewriteConjunctions(s[ConjunctionStep(s).1..])
  {
  }

  lemma ConjunctionStepVisible(s: string)
    requires s != []
    ensures var out, k := ConjunctionStep(s).0, ConjunctionStep(s).1; Visible(out) == Visible(s[..k])
  {
    var out, k := ConjunctionStep(s).0, ConjunctionStep(s).1;
    if k > 1 {
      var w := s[1..k];
      assert s[..k] == [s[0]] + w;
      InsertedBreakVisible(s[0], w);
    } else {
      assert s[..k] == out;
    }
  }

  /** A line feed inserted after a character leaves the visible text as it is. */
  lemma InsertedBreakVisible(c: char, w: string)
    ensures Visible([c, '\n'] + w) == Visible([c] + w)
  {
    assert [c, '\n'] + w == [c] + (['\n'] + w);
    VisibleCons(c, ['\n'] + w);
    VisibleCons('\n', w);
    VisibleCons(c, w);
  }

  /** Rewrite 2 keeps the visible text. */
  lemma {:induction false} RewriteConjunctionsVisible(s: string)
    ensures Visible(RewriteConjunctions(s)) == Visible(s)
  {
    if s != [] {
      var out, k := ConjunctionStep(s).0, ConjunctionStep(s).1;
      ConjunctionUnfold(s);
      ConjunctionStepVisible(s);
      RewriteConjunctionsVisible(s[k..]);
      VisibleConcat(out, RewriteConjunctions(s[k..]));
      VisibleSplit(s, k);
    }
  }

  /** No conjunction is a prefix of another, so the alternation matches exactly the one present. */
  lemma ConjunctionLengthOf(w: string, t: string)
    requires w in Conjunctions
    ensures ConjunctionLength(w + t) == |w|
  {
    var s := w + t;
    assert s[..|w|] == w;
    assert s[0] == w[0] && s[1] == w[1];
    if w == Conjunctions[0] {
    } else if w == Conjunctions[1] {
    } else if w == Conjunctions[2] {
    } else if w == Conjunctions[3] {
    } else {
      assert w == Conjunctions[4];
    }
  }

  /** Rewrite 2 does fire: a 。 directly followed by a conjunction gets a line feed after it. */
  lemma ConjunctionGetsBreak(w: string, t: string)
    requires w in Conjunctions
    ensures RewriteConjunctions(['。'] + w + t) == ['。', '\n'] + w + RewriteConjunctions(t)
  {
    var s := ['。'] + w + t;
    assert s[1..] == w + t;
    ConjunctionLengthOf(w, t);
    assert s[1..1 + |w|] == w && s[1 + |w|..] == t;
    assert ConjunctionStep(s).0 == ['。', '\n'] + w && ConjunctionStep(s).1 == 1 + |w|;
    ConjunctionUnfold(s);
  }

  lemma ConjunctionStepErase(s: string)
    requires s != []
    ensures var out, k := ConjunctionStep(s).0, ConjunctionStep(s).1;
      Erase(out, {'\n'}) == Erase(s[..k], {'\n'})
  {
    var out, k := ConjunctionStep(s).0, ConjunctionStep(s).1;
    if k > 1 {
      var w := s[1..k];
      assert s[..k] == [s[0]] + w;
      assert out == [s[0], '\n'] + w;
      EraseConcat([s[0], '\n'], w, {'\n'});
      EraseConcat([s[0]], w, {'\n'});
      EraseReplacedBreak(s[0], [], {'\n'});
      assert [s[0]] + [] == [s[0]];
    } else {
      assert s[..k] == out;
    }
  }

  /** Rewrite 2 changes nothing but line feeds: with line feeds erased, input and output are the same text. */
  lemma {:induction false} RewriteConjunctionsOnlyBreaks(s: string)
    ensures Erase(RewriteConjunctions(s), {'\n'}) == Erase(s, {'\n'})
  {
    if s != [] {
      var out, k := ConjunctionStep(s).0, ConjunctionStep(s).1;
      ConjunctionUnfold(s);
      ConjunctionStepErase(s);
      RewriteConjunctionsOnlyBreaks(s[k..]);
      EraseConcat(out, RewriteConjunctions(s[k..]), {'\n'});
      EraseSplit(s, k, {'\n'});
    }
  }

  /** Once every 。 is followed by a line feed, rewrite 2 finds nothing to do. */
  lemma {:induction false} RewriteConjunctionsIdentity(s: string)
    requires MarksBroken(s)
    ensures RewriteConjunctions(s) == s
  {
    if s != [] {
      if s[0] == '。' && |s| > 1 {
        assert IsSentenceEnd(s[0]) && s[1] == '\n';
        ConjunctionNotAtBreak(s[1..]);
      }
      assert ConjunctionStep(s) == ([s[0]], 1);
      LayoutOfSlice(s, 1, |s|);
      RewriteConjunctionsIdentity(s[1..]);
      assert s == [s[0]] + s[1..];
    }
  }

  /**
   * Rewrite 2 is dead code: rewrite 1 has already put a line feed after every 。
   * that has a successor, so no `。でも`, `。しかし`, ... survives to it.
   */
  lemma ConjunctionRewriteIsNoOp(s: string)
    ensures RewriteConjunctions(BreakAfterMarks(s)) == BreakAfterMarks(s)
  {
    BreakAfterMarksBreaks(s);
    RewriteConjunctionsIdentity(BreakAfterMarks(s));
  }

  // ---------------------------------------------------------------------------
  // Rewrite 3: formatted.replace(/\n+/g, '\n')
  // ---------------------------------------------------------------------------

  /** One step of rewrite 3: a maximal run of line feeds becomes one; anything else is copied. */
  function CollapseStep(s: string): (st: (string, nat))
    requires s != []
    ensures 0 < st.1 <= |s| && st.0 == [s[0]]
    ensures s[0] != '\n' ==> st.1 == 1
    ensures forall i :: 0 <= i < st.1 ==> s[i] == s[0]
    ensures s[0] == '\n' && st.1 < |s| ==> s[st.1] != '\n'
  {
    if s[0] == '\n' then (['\n'], RunLength(s, '\n')) else ([s[0]], 1)
  }

  function CollapseNewlines(s: string): (r: string)
    ensures s != [] ==> r != [] && r[0] == s[0]
    decreases |s|
  {
    if s == [] then []
    else
      var out, k := CollapseStep(s).0, CollapseStep(s).1;
      out + CollapseNewlines(s[k..])
  }

  /** `CollapseNewlines` is the first step followed by the scan of the rest. */
  lemma CollapseUnfold(s: string)
    requires s != []
    ensures CollapseNewlines(s) == CollapseStep(s).0 + CollapseNewlines(s[CollapseStep(s).1..])
  {
  }

  /** After rewrite 3 no two line feeds are adjacent. */
  lemma {:induction false} CollapseNewlinesNoDouble(s: string)
    ensures NoDoubleNewline(CollapseNewlines(s))
  {
    if s != [] {
      var out, k := CollapseStep(s).0, CollapseStep(s).1;
      CollapseNewlinesNoDouble(s[k..]);
      NoDoubleNewlineConcat(out, CollapseNewlines(s[k..]));
    }
  }

  /** Rewrite 3 keeps every mark broken. */
  lemma {:induction false} CollapseNewlinesKeepsMarksBroken(s: string)
    requires MarksBroken(s)
    ensures MarksBroken(CollapseNewlines(s))
  {
    if s != [] {
      var out, k := CollapseStep(s).0, CollapseStep(s).1;
      LayoutOfSlice(s, k, |s|);
      CollapseNewlinesKeepsMarksBroken(s[k..]);
      MarksBrokenConcat(out, CollapseNewlines(s[k..]));
    }
  }

  lemma CollapseStepVisible(s: string)
    requires s != []
    ensures var out, k := CollapseStep(s).0, CollapseStep(s).1; Visible(out) == Visible(s[..k])
  {
    var out, k := CollapseStep(s).0, CollapseStep(s).1;
    if s[0] == '\n' {
      assert AllBlank(s[..k]);
      VisibleOfBlank(s[..k]);
      VisibleOfBlank(out);
    } else {
      assert s[..k] == out;
    }
  }

  /** Rewrite 3 keeps the visible text. */
  lemma {:induction false} CollapseNewlinesVisible(s: string)
    ensures Visible(CollapseNewlines(s)) == Visible(s)
  {
    if s != [] {
      var out, k := CollapseStep(s).0, CollapseStep(s).1;
      CollapseUnfold(s);
      CollapseStepVisible(s);
      CollapseNewlinesVisible(s[k..]);
      VisibleConcat(out, CollapseNewlines(s[k..]));
      VisibleSplit(s, k);
    }
  }

  lemma CollapseStepErase(s: string)
    requires s != []
    ensures var out, k := CollapseStep(s).0, CollapseStep(s).1;
      Erase(out, {'\n'}) == Erase(s[..k], {'\n'})
  {
    var out, k := CollapseStep(s).0, CollapseStep(s).1;
    if s[0] == '\n' {
      EraseOfGone(s[..k], {'\n'});
      EraseOfGone(out, {'\n'});
    } else {
      assert s[..k] == out;
    }
  }

  /** Rewrite 3 changes nothing but line feeds: with line feeds erased, input and output are the same text. */
  lemma {:induction false} CollapseNewlinesOnlyBreaks(s: string)
    ensures Erase(CollapseNewlines(s), {'\n'}) == Erase(s, {'\n'})
  {
    if s != [] {
      var out, k := CollapseStep(s).0, CollapseStep(s).1;
      CollapseUnfold(s);
      CollapseStepErase(s);
      CollapseNewlinesOnlyBreaks(s[k..]);
      EraseConcat(out, CollapseNewlines(s[k..]), {'\n'});
      EraseSplit(s, k, {'\n'});
    }
  }

  /** A text without adjacent line feeds is left as it is by rewrite 3. */
  lemma {:induction false} CollapseNewlinesIdentity(s: string)
    requires NoDoubleNewline(s)
    ensures CollapseNewlines(s) == s
  {
    if s != [] {
      var out, k := CollapseStep(s).0, CollapseStep(s).1;
      if s[0] == '\n' && |s| > 1 {
        assert s[1] != '\n';
        assert s[1..][0] != '\n';
      }
      assert k == 1;
      assert out == [s[0]];
      CollapseUnfold(s);
      LayoutOfSlice(s, 1, |s|);
      CollapseNewlinesIdentity(s[1..]);
      assert s == [s[0]] + s[1..];
    }
  }

  /**
   * Rewrite 3 works piecewise at a position that does not split a run of line
   * feeds.
   */
  lemma {:induction false} CollapseNewlinesConcat(x: string, y: string)
    requires x == [] || y == [] || x[|x| - 1] != '\n' || y[0] != '\n'
    ensures CollapseNewlines(x + y) == CollapseNewlines(x) + CollapseNewlines(y)
  {
    var xy := x + y;
    if x == [] {
      assert xy == y;
    } else {
      var out, k := CollapseStep(x).0, CollapseStep(x).1;
      assert xy[0] == x[0];
      if x[0] == '\n' {
        if k < |x| {
          RunLengthPrefix(x, y, '\n');
        } else if y != [] {
          RunLengthOfRun(x, y, '\n');
        } else {
          assert xy == x;
        }
      }
      assert CollapseStep(xy) == (out, k);
      assert xy[k..] == x[k..] + y;
      CollapseNewlinesConcat(x[k..], y);
      AppendAssoc(out, CollapseNewlines(x[k..]), CollapseNewlines(y));
    }
  }

  // ---------------------------------------------------------------------------
  // The whole of formatQuoteText
  // ---------------------------------------------------------------------------

  /** The four rewrites in sequence, without the guard. */
  function Rewrites(text: string): string {
    Trim(CollapseNewlines(RewriteConjunctions(BreakAfterMarks(text))))
  }

  /**
   * `formatQuoteText`: the empty text and the placeholder are returned untouched;
   * in every result each mark ends its line (or the text), there is no blank
   * line, nothing trimmable surrounds the text, and the characters that are not
   * whitespace are exactly those of the input, in order.
   */
  function FormatQuoteText(text: string): (r: string)
    ensures text == [] || text == Placeholder ==> r == text
    ensures MarksBroken(r)
    ensures NoDoubleNewline(r)
    ensures Trimmed(r)
    ensures Visible(r) == Visible(text)
  {
    if text == [] || text == Placeholder then
      PlaceholderFacts();
      text
    else
      RewritesLayout(text);
      Rewrites(text)
  }

  /** Trimming cuts out a contiguous piece, so the layout predicates survive it. */
  lemma TrimKeepsLayout(s: string)
    ensures MarksBroken(s) ==> MarksBroken(Trim(s))
    ensures NoDoubleNewline(s) ==> NoDoubleNewline(Trim(s))
    ensures BreaksFollowMarks(s) ==> BreaksFollowMarks(Trim(s))
  {
    var a, b := TrimPiece(s);
    if a < b {
      assert s[a] == Trim(s)[0];
    }
    LayoutOfSlice(s, a, b);
  }

  /** The layout properties of the four rewrites, for every text. */
  lemma RewritesLayout(text: string)
    ensures MarksBroken(Rewrites(text))
    ensures NoDoubleNewline(Rewrites(text))
    ensures Trimmed(Rewrites(text))
    ensures Visible(Rewrites(text)) == Visible(text)
  {
    var b := BreakAfterMarks(text);
    BreakAfterMarksBreaks(text);
    BreakAfterMarksVisible(text);
    ConjunctionRewriteIsNoOp(text);
    var n := CollapseNewlines(b);
    CollapseNewlinesNoDouble(b);
    CollapseNewlinesKeepsMarksBroken(b);
    CollapseNewlinesVisible(b);
    TrimKeepsLayout(n);
    TrimVisible(n);
  }

  /** The placeholder has no mark, no line feed and no trimmable character at either end. */
  lemma PlaceholderFacts()
    ensures forall k :: 0 <= k < |Placeholder| ==> !IsSentenceEnd(Placeholder[k]) && Placeholder[k] != '\n'
    ensures MarksBroken(Placeholder) && NoDoubleNewline(Placeholder) && BreaksFollowMarks(Placeholder)
    ensures Trimmed(Placeholder)
  {
  }

  /** A text without line feeds gets line feeds right after its marks and nowhere else. */
  lemma BreaksOnlyAfterMarks(text: string)
    requires '\n' !in text
    ensures BreaksFollowMarks(FormatQuoteText(text))
  {
    if text == [] || text == Placeholder {
      PlaceholderFacts();
    } else {
      var b := BreakAfterMarks(text);
      BreakAfterMarksPlacesBreaks(text);
      ConjunctionRewriteIsNoOp(text);
      BreaksFollowMarksNoDouble(b);
      CollapseNewlinesIdentity(b);
      TrimKeepsLayout(b);
    }
  }

  /**
   * The guard is only a shortcut: on the empty text and on the placeholder the
   * four rewrites give the same result.
   */
  lemma GuardIsShortcut(text: string)
    ensures FormatQuoteText(text) == Rewrites(text)
  {
    if text == Placeholder {
      PlaceholderFacts();
      BreakAfterMarksNoMarks(Placeholder);
      ConjunctionRewriteIsNoOp(Placeholder);
      CollapseNewlinesIdentity(Placeholder);
    }
  }

  /** Rewrite 1 at a mark that is already followed by a line feed adds a second one. */
  lemma BreakAtBrokenMark(s: string)
    requires |s| > 1 && IsSentenceEnd(s[0]) && s[1] == '\n'
    ensures BreakAfterMarks(s) == [s[0], '\n', '\n'] + BreakAfterMarks(s[2..])
  {
    var t := s[1..];
    assert t[0] == '\n' && RunLength(t, FullWidthSpace) == 0;
    assert 1 + RunLength(t, FullWidthSpace) < |s|;
    assert BreakStep(s).1 == 1;
    assert BreakStep(s).0 == [s[0], '\n'];
    BreakUnfold(s);
    assert t[1..] == s[2..];
    assert BreakStep(t).0 == ['\n'] && BreakStep(t).1 == 1;
    BreakUnfold(t);
    var x := BreakAfterMarks(s[2..]);
    AppendAssoc([s[0], '\n'], ['\n'], x);
    assert [s[0], '\n'] + ['\n'] == [s[0], '\n', '\n'];
  }

  /** Rewrite 1 copies a character that is not a mark, or a mark that ends the text. */
  lemma BreakCopies(s: string)
    requires s != [] && (!IsSentenceEnd(s[0]) || |s| == 1)
    ensures BreakAfterMarks(s) == [s[0]] + BreakAfterMarks(s[1..])
  {
    assert BreakStep(s).0 == [s[0]] && BreakStep(s).1 == 1;
    BreakUnfold(s);
  }

  /** Rewrite 3 collapses the two line feeds after a character that is not one. */
  lemma CollapseAfterBreak(c: char, x: string)
    requires c != '\n' && (x == [] || x[0] != '\n')
    ensures CollapseNewlines([c, '\n', '\n'] + x) == [c, '\n'] + CollapseNewlines(x)
  {
    var m := [c, '\n', '\n'];
    CollapseNewlinesConcat(m, x);
    assert CollapseStep(m).0 == [c] && CollapseStep(m).1 == 1 && m[1..] == ['\n', '\n'];
    CollapseUnfold(m);
    assert RunLength(['\n', '\n'], '\n') == 2;
    assert CollapseNewlines(['\n', '\n']) == ['\n'] + CollapseNewlines([]);
    assert CollapseNewlines(m) == [c, '\n'];
  }

  /** Rewrite 3 copies a character that does not start a run of two line feeds. */
  lemma CollapseCopies(c: char, x: string)
    requires c != '\n' || x == [] || x[0] != '\n'
    ensures CollapseNewlines([c] + x) == [c] + CollapseNewlines(x)
  {
    CollapseNewlinesConcat([c], x);
    assert CollapseNewlines([c]) == [c] + CollapseNewlines([]);
  }

  /** Rewrites 1 and 3 together give back a text that already has the layout. */
  lemma {:induction false} RelayoutIsIdentity(s: string)
    requires MarksBroken(s) && NoDoubleNewline(s)
    ensures CollapseNewlines(BreakAfterMarks(s)) == s
  {
    if s == [] {
    } else if IsSentenceEnd(s[0]) && |s| > 1 {
      LayoutOfSlice(s, 2, |s|);
      RelayoutIsIdentity(s[2..]);
      assert s[1] == '\n' && (|s| > 2 ==> s[2] != '\n');
      RelayoutAtMark(s);
    } else {
      LayoutOfSlice(s, 1, |s|);
      RelayoutIsIdentity(s[1..]);
      assert s[0] == '\n' && |s| > 1 ==> s[1] != '\n';
      RelayoutAtCopy(s);
    }
  }

  /** The inductive step of `RelayoutIsIdentity` at a mark and the line feed after it. */
  lemma RelayoutAtMark(s: string)
    requires |s| > 1 && IsSentenceEnd(s[0]) && s[1] == '\n'
    requires |s| > 2 ==> s[2] != '\n'
    requires CollapseNewlines(BreakAfterMarks(s[2..])) == s[2..]
    ensures CollapseNewlines(BreakAfterMarks(s)) == s
  {
    var rest := s[2..];
    BreakAtBrokenMark(s);
    var x := BreakAfterMarks(rest);
    assert x == [] || x[0] != '\n' by {
      if rest != [] {
        assert rest[0] == s[2];
      }
    }
    CollapseAfterBreak(s[0], x);
    calc {
      CollapseNewlines(BreakAfterMarks(s));
      CollapseNewlines([s[0], '\n', '\n'] + x);
      [s[0], '\n'] + CollapseNewlines(x);
      [s[0], '\n'] + rest;
      { assert s == [s[0], '\n'] + rest; }
      s;
    }
  }

  /** The inductive step of `RelayoutIsIdentity` at a character rewrite 1 copies. */
  lemma RelayoutAtCopy(s: string)
    requires s != [] && (!IsSentenceEnd(s[0]) || |s| == 1)
    requires s[0] == '\n' && |s| > 1 ==> s[1] != '\n'
    requires CollapseNewlines(BreakAfterMarks(s[1..])) == s[1..]
    ensures CollapseNewlines(BreakAfterMarks(s)) == s
  {
    var x := BreakAfterMarks(s[1..]);
    BreakCopies(s);
    CollapseCopies(s[0], x);
    calc {
      CollapseNewlines(BreakAfterMarks(s));
      CollapseNewlines([s[0]] + x);
      [s[0]] + CollapseNewlines(x);
      [s[0]] + s[1..];
      s;
    }
  }

  /** Formatting an already formatted quote changes nothing. */
  lemma FormatQuoteTextIdempotent(text: string)
    ensures FormatQuoteText(FormatQuoteText(text)) == FormatQuoteText(text)
  {
    var r := FormatQuoteText(text);
    if r != [] && r != Placeholder {
      RelayoutIsIdentity(r);
      BreakAfterMarksBreaks(r);
      RewriteConjunctionsIdentity(BreakAfterMarks(r));
    }
  }

  /**
   * The result is empty exactly when the input has no visible character, and
   * otherwise its first and last characters are the first and last visible
   * characters of the input.
   */
  lemma FormatKeepsEnds(text: string)
    ensures Visible(text) == [] <==> FormatQuoteText(text) == []
    ensures Visible(text) != [] ==>
      var r, v := FormatQuoteText(text), Visible(text);
      r != [] && r[0] == v[0] && r[|r| - 1] == v[|v| - 1]
  {
    TrimmedEnds(FormatQuoteText(text));
  }

  /**
   * A mark that ends the input also ends the result, even when full-width
   * spaces or line feeds follow it in the input.
   */
  lemma FinalMarkEndsResult(text: string, k: nat)
    requires k < |text| && IsSentenceEnd(text[k]) && AllBlank(text[k + 1..])
    ensures var r := FormatQuoteText(text); r != [] && r[|r| - 1] == text[k]
  {
    VisibleEndsWith(text, k);
    FormatKeepsEnds(text);
  }

  // ---------------------------------------------------------------------------
  // Worked examples
  // ---------------------------------------------------------------------------

  /** Rewrite 1 already breaks before a conjunction, whatever the comment above it says. */
  lemma ExampleBreakBeforeConjunction()
    ensures BreakAfterMarks("だめ。でも") == "だめ。\nでも"
  {
    assert "だめ" + ['。'] + Repeat(FullWidthSpace, 0) + "でも" == "だめ。でも";
    SpacesAfterMarkSwallowed("だめ", '。', 0, "でも");
    BreakAfterMarksNoMarks("だめ");
    BreakAfterMarksNoMarks("でも");
    assert "だめ" + ['。', '\n'] + "でも" == "だめ。\nでも";
  }

  /** Rewrite 2 on its own breaks between 。 and でも. */
  lemma ExampleConjunctionRewrite()
    ensures RewriteConjunctions("。でも") == "。\nでも"
  {
    assert "。でも" == ['。'] + "でも" + [];
    ConjunctionGetsBreak("でも", []);
    assert ['。', '\n'] + "でも" + [] == "。\nでも";
  }

  /** A mark with a trailing full-width space: the regex backtracks and keeps the space. */
  lemma ExampleTrailingSpace()
    ensures BreakAfterMarks("はい。\U{3000}") == "はい。\n\U{3000}"
  {
    assert Repeat(FullWidthSpace, 1) == [FullWidthSpace] + Repeat(FullWidthSpace, 0);
    assert "はい" + ['。'] + Repeat(FullWidthSpace, 1) == "はい。\U{3000}";
    TrailingSpacesBacktrack("はい", '。', 1);
    BreakAfterMarksNoMarks("はい");
  }
}
