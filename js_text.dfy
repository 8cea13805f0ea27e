/**
 * The part of ECMAScript string semantics that `String.prototype.trim` relies on:
 * the WhiteSpace code points (section 12.2 of ECMA-262), the LineTerminator code
 * points (section 12.3 of ECMA-262), and trimming both ends of a string.
 *
 * Characters are Unicode scalar values. ECMAScript strings are UTF-16 code units,
 * but every character named here lies in the Basic Multilingual Plane, so no
 * surrogate half is ever trimmable and the two views agree.
 */
module JsText {

  /** WhiteSpace: TAB, VT, FF, ZWNBSP and every code point of general category Zs. */
  predicate IsWhiteSpace(c: char) {
    c == '\t' || c == '\U{000B}' || c == '\U{000C}' || c == '\U{FEFF}'
    || c == ' ' || c == '\U{00A0}' || c == '\U{1680}'
    || ('\U{2000}' <= c <= '\U{200A}')
    || c == '\U{202F}' || c == '\U{205F}' || c == '\U{3000}'
  }

  /** LineTerminator: LF, CR, LINE SEPARATOR and PARAGRAPH SEPARATOR. */
  predicate IsLineTerminator(c: char) {
    c == '\n' || c == '\r' || c == '\U{2028}' || c == '\U{2029}'
  }

  /** What `trim` removes: the union of WhiteSpace and LineTerminator. */
  predicate IsTrimmable(c: char) {
    IsWhiteSpace(c) || IsLineTerminator(c)
  }

  /** Every character of `s` is trimmable. */
  predicate AllBlank(s: string) {
    forall k :: 0 <= k < |s| ==> IsTrimmable(s[k])
  }

  /** `s` neither starts nor ends with a trimmable character. */
  predicate Trimmed(s: string) {
    s == [] || (!IsTrimmable(s[0]) && !IsTrimmable(s[|s| - 1]))
  }

  /** The characters of `s` that are not trimmable, in order. */
  function Visible(s: string): (r: string)
    ensures |r| <= |s|
    ensures forall k :: 0 <= k < |r| ==> !IsTrimmable(r[k])
  {
    if s == [] then []
    else (if IsTrimmable(s[0]) then [] else [s[0]]) + Visible(s[1..])
  }

  lemma VisibleCons(c: char, x: string)
    ensures Visible([c] + x) == (if IsTrimmable(c) then [] else [c]) + Visible(x)
  {
    assert ([c] + x)[1..] == x;
  }

  lemma {:induction false} VisibleConcat(a: string, b: string)
    ensures Visible(a + b) == Visible(a) + Visible(b)
  {
    if a == [] {
      assert a + b == b;
    } else {
      assert (a + b)[1..] == a[1..] + b;
      VisibleConcat(a[1..], b);
    }
  }

  lemma {:induction false} VisibleOfBlank(s: string)
    requires AllBlank(s)
    ensures Visible(s) == []
  {
    if s != [] {
      VisibleOfBlank(s[1..]);
    }
  }

  /** The visible text of `s` is that of any prefix followed by that of the rest. */
  lemma VisibleSplit(s: string, k: nat)
    requires k <= |s|
    ensures Visible(s) == Visible(s[..k]) + Visible(s[k..])
  {
    assert s == s[..k] + s[k..];
    VisibleConcat(s[..k], s[k..]);
  }

  /** A visible character followed only by blank ones is the last visible character. */
  lemma VisibleEndsWith(s: string, k: nat)
    requires k < |s| && !IsTrimmable(s[k]) && AllBlank(s[k + 1..])
    ensures var v := Visible(s); v != [] && v[|v| - 1] == s[k]
  {
    var a, b := s[..k], s[k + 1..];
    assert s == (a + [s[k]]) + b;
    VisibleConcat(a + [s[k]], b);
    VisibleOfBlank(b);
    VisibleConcat(a, [s[k]]);
    VisibleCons(s[k], []);
  }

  /** The number of trimmable characters at the start of `s`. */
  function LeadingBlank(s: string): (n: nat)
    ensures n <= |s|
    ensures forall k :: 0 <= k < n ==> IsTrimmable(s[k])
    ensures n < |s| ==> !IsTrimmable(s[n])
  {
    if s != [] && IsTrimmable(s[0]) then 1 + LeadingBlank(s[1..]) else 0
  }

  /** The number of trimmable characters at the end of `s`. */
  function TrailingBlank(s: string): (n: nat)
    ensures n <= |s|
    ensures forall k :: |s| - n <= k < |s| ==> IsTrimmable(s[k])
    ensures n < |s| ==> !IsTrimmable(s[|s| - 1 - n])
  {
    if s != [] && IsTrimmable(s[|s| - 1]) then 1 + TrailingBlank(s[..|s| - 1]) else 0
  }

  /**
   * `String.prototype.trim`: the piece of `s` between its leading and its
   * trailing trimmable characters. The result neither starts nor ends with a
   * trimmable character, and a string that has none at either end is returned
   * as it is.
   */
  function Trim(s: string): (r: string)
    ensures Trimmed(r)
    ensures Trimmed(s) ==> r == s
  {
    var a := LeadingBlank(s);
    if a == |s| then [] else s[a..|s| - TrailingBlank(s)]
  }

  /**
   * What `trim` keeps: one contiguous piece of `s`, with only trimmable
   * characters cut off before and after it. Together with `Trimmed(Trim(s))`
   * this fixes the result: the cuts are the longest blank prefix and suffix.
   */
  lemma TrimPiece(s: string) returns (a: nat, b: nat)
    ensures a <= b <= |s| && Trim(s) == s[a..b]
    ensures AllBlank(s[..a]) && AllBlank(s[b..])
  {
    a := LeadingBlank(s);
    if a == |s| {
      b := a;
      assert s[b..] == [];
    } else {
      b := |s| - TrailingBlank(s);
    }
  }

  /** Trimming removes no visible character. */
  lemma TrimVisible(s: string)
    ensures Visible(Trim(s)) == Visible(s)
  {
    var a, b := TrimPiece(s);
    VisibleOfPiece(s, a, b);
  }

  /** Cutting blank characters off both ends of `s` keeps its visible text. */
  lemma VisibleOfPiece(s: string, a: nat, b: nat)
    requires a <= b <= |s| && AllBlank(s[..a]) && AllBlank(s[b..])
    ensures Visible(s[a..b]) == Visible(s)
  {
    var t := s[a..];
    calc {
      Visible(s[a..b]);
      == { assert t[..b - a] == s[a..b]; }
      Visible(t[..b - a]);
      == { assert t[b - a..] == s[b..]; DropBlankSuffix(t, b - a); }
      Visible(t);
      == { DropBlankPrefix(s, a); }
      Visible(s);
    }
  }

  lemma DropBlankPrefix(s: string, a: nat)
    requires a <= |s| && AllBlank(s[..a])
    ensures Visible(s[a..]) == Visible(s)
  {
    VisibleSplit(s, a);
    VisibleOfBlank(s[..a]);
  }

  lemma DropBlankSuffix(s: string, b: nat)
    requires b <= |s| && AllBlank(s[b..])
    ensures Visible(s[..b]) == Visible(s)
  {
    VisibleSplit(s, b);
    VisibleOfBlank(s[b..]);
  }

  /**
   * A trimmed text is empty exactly when it has no visible character, and its
   * first and last characters are its first and last visible ones.
   */
  lemma TrimmedEnds(s: string)
    requires Trimmed(s)
    ensures Visible(s) == [] <==> s == []
    ensures s != [] ==> var v := Visible(s); v != [] && v[0] == s[0] && v[|v| - 1] == s[|s| - 1]
  {
    if s != [] {
      var n := |s|;
      assert s == [s[0]] + s[1..];
      VisibleCons(s[0], s[1..]);
      assert s == s[..n - 1] + [s[n - 1]];
      VisibleConcat(s[..n - 1], [s[n - 1]]);
      VisibleCons(s[n - 1], []);
    }
  }
}
