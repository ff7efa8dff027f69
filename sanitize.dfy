/**
 * `sanitize_markdown` of colors.py: emphasis markers are removed, then every
 * run of spaces, tabs and line breaks becomes a single space.
 */
module Sanitize {

  /** The characters of `[*_`]`. */
  predicate IsMarkup(ch: char)
  {
    ch == '*' || ch == '_' || ch == '`'
  }

  /** The characters of `[ \t\n\r]`. */
  predicate IsBlank(ch: char)
  {
    ch == ' ' || ch == '\t' || ch == '\n' || ch == '\r'
  }

  /** No two spaces in a row. */
  predicate SingleSpaced(s: string)
  {
    forall i, j | 0 <= i && j == i + 1 < |s| :: !(s[i] == ' ' && s[j] == ' ')
  }

  /** What a sanitized string looks like: no markup, no tab or line break, no double space. */
  predicate Clean(s: string)
  {
    (forall i | 0 <= i < |s| :: !IsMarkup(s[i]) && (IsBlank(s[i]) ==> s[i] == ' ')) &&
    SingleSpaced(s)
  }

  /** `re.sub(r'[*_`]', '', s)`. */
  function Desparkle(s: string): (t: string)
    ensures |t| <= |s|
    ensures forall i | 0 <= i < |t| :: !IsMarkup(t[i])
    ensures forall i | 0 <= i < |t| :: t[i] in s
  {
    if s == [] then []
    else if IsMarkup(s[0]) then Desparkle(s[1..])
    else [s[0]] + Desparkle(s[1..])
  }

  /** The rest of `s` after its leading blanks. */
  function DropBlanks(s: string): (t: string)
    ensures |t| <= |s| && t == s[|s| - |t|..]
    ensures t == [] || !IsBlank(t[0])
  {
    if s != [] && IsBlank(s[0]) then DropBlanks(s[1..]) else s
  }

  /** `re.sub(r'[ \t\n\r]+', ' ', s)`: every maximal run of blanks becomes one space. */
  function Despace(s: string): (t: string)
    ensures forall i | 0 <= i < |t| :: IsBlank(t[i]) ==> t[i] == ' '
    ensures SingleSpaced(t)
    ensures t == [] <==> s == []
    ensures t != [] ==> (t[0] == ' ' <==> IsBlank(s[0]))
    ensures t != [] && !IsBlank(s[0]) ==> t[0] == s[0]
    decreases |s|
  {
    if s == [] then []
    else if IsBlank(s[0]) then
      var rest := DropBlanks(s[1..]);
      var r := Despace(rest);
      assert r != [] ==> r[0] == rest[0] && r[0] != ' ';
      ConsSpaced(' ', r);
      [' '] + r
    else
      var r := Despace(s[1..]);
      ConsSpaced(s[0], r);
      [s[0]] + r
  }

  /** Putting a character before a collapsed string keeps it collapsed, unless it makes a double space. */
  lemma ConsSpaced(c: char, r: string)
    requires forall i | 0 <= i < |r| :: IsBlank(r[i]) ==> r[i] == ' '
    requires SingleSpaced(r)
    requires IsBlank(c) ==> c == ' '
    requires c == ' ' ==> r == [] || r[0] != ' '
    ensures forall i | 0 <= i < |[c] + r| :: IsBlank(([c] + r)[i]) ==> ([c] + r)[i] == ' '
    ensures SingleSpaced([c] + r)
  {
    var t := [c] + r;
    forall i | 1 <= i < |t| ensures t[i] == r[i - 1] {}
  }

  /** Collapsing blanks brings in no markup character. */
  lemma {:induction false} DespaceNoMarkup(s: string)
    requires forall i | 0 <= i < |s| :: !IsMarkup(s[i])
    ensures forall i | 0 <= i < |Despace(s)| :: !IsMarkup(Despace(s)[i])
    decreases |s|
  {
    if s != [] {
      var tail := s[1..];
      assert forall i | 0 <= i < |tail| :: !IsMarkup(tail[i]) by {
        forall i | 0 <= i < |tail| ensures !IsMarkup(tail[i]) { assert tail[i] == s[i + 1]; }
      }
      if IsBlank(s[0]) {
        var rest := DropBlanks(tail);
        assert forall i | 0 <= i < |rest| :: !IsMarkup(rest[i]) by {
          forall i | 0 <= i < |rest| ensures !IsMarkup(rest[i]) { assert rest[i] == tail[|tail| - |rest| + i]; }
        }
        DespaceNoMarkup(rest);
        assert Despace(s) == [' '] + Despace(rest);
        ConsNoMarkup(' ', Despace(rest));
      } else {
        DespaceNoMarkup(tail);
        assert Despace(s) == [s[0]] + Despace(tail);
        ConsNoMarkup(s[0], Despace(tail));
      }
    }
  }

  lemma ConsNoMarkup(c: char, r: string)
    requires !IsMarkup(c) && forall i | 0 <= i < |r| :: !IsMarkup(r[i])
    ensures forall i | 0 <= i < |[c] + r| :: !IsMarkup(([c] + r)[i])
  {
    var t := [c] + r;
    forall i | 1 <= i < |t| ensures t[i] == r[i - 1] {}
  }

  /** `sanitize_markdown`. */
  function SanitizeMarkdown(s: string): (t: string)
    ensures Clean(t)
  {
    var d := Desparkle(s);
    DespaceNoMarkup(d);
    Despace(d)
  }

  /** A string without markup is left alone by the first substitution. */
  lemma {:induction false} DesparkleClean(s: string)
    requires forall i | 0 <= i < |s| :: !IsMarkup(s[i])
    ensures Desparkle(s) == s
  {
    if s != [] {
      DesparkleClean(s[1..]);
    }
  }

  /** A string with only single spaces for blanks is left alone by the second substitution. */
  lemma {:induction false} DespaceClean(s: string)
    requires forall i | 0 <= i < |s| :: IsBlank(s[i]) ==> s[i] == ' '
    requires SingleSpaced(s)
    ensures Despace(s) == s
  {
    if s != [] {
      if IsBlank(s[0]) {
        if |s| > 1 {
          assert s[1] != ' ';
          assert DropBlanks(s[1..]) == s[1..];
        }
        DespaceClean(s[1..]);
      } else {
        DespaceClean(s[1..]);
      }
    }
  }

  /**
   * The first substitution works character by character: a markup character
   * is dropped, every other character (blanks included) is kept, in order.
   */
  lemma {:induction false} DesparkleAppend(a: string, b: string)
    ensures Desparkle(a + b) == Desparkle(a) + Desparkle(b)
    ensures |a| == 1 ==> Desparkle(a) == if IsMarkup(a[0]) then [] else a
  {
    if a == [] {
      assert a + b == b;
    } else {
      var ab := a + b;
      assert ab[0] == a[0] && ab[1..] == a[1..] + b;
      DesparkleAppend(a[1..], b);
      if !IsMarkup(a[0]) {
        assert [a[0]] + (Desparkle(a[1..]) + Desparkle(b)) == ([a[0]] + Desparkle(a[1..])) + Desparkle(b);
      }
      if |a| == 1 {
        assert a[1..] == [];
        assert [a[0]] == a;
      }
    }
  }

  /** Leading blanks are dropped up to the first character that is not one. */
  lemma {:induction false} DropBlanksAppend(a: string, b: string)
    requires a != [] && !IsBlank(a[|a| - 1])
    ensures DropBlanks(a + b) == DropBlanks(a) + b
    ensures DropBlanks(a) != [] && !IsBlank(DropBlanks(a)[|DropBlanks(a)| - 1])
  {
    var ab := a + b;
    assert ab[0] == a[0];
    if IsBlank(a[0]) {
      assert ab[1..] == a[1..] + b;
      DropBlanksAppend(a[1..], b);
    }
  }

  /** A run of blanks before something that is not a blank is dropped whole. */
  lemma {:induction false} DropBlanksRun(w: string, y: string)
    requires forall i | 0 <= i < |w| :: IsBlank(w[i])
    requires y == [] || !IsBlank(y[0])
    ensures DropBlanks(w + y) == y
  {
    if w == [] {
      assert w + y == y;
    } else {
      var wy := w + y;
      assert wy[0] == w[0] && wy[1..] == w[1..] + y;
      DropBlanksRun(w[1..], y);
    }
  }

  /** Splitting after a character that is not a blank splits the collapsed string too. */
  lemma {:induction false} DespaceAppend(x: string, y: string)
    requires x == [] || !IsBlank(x[|x| - 1])
    ensures Despace(x + y) == Despace(x) + Despace(y)
    decreases |x|
  {
    if x == [] {
      assert x + y == y;
    } else if IsBlank(x[0]) {
      var d := DropBlanks(x[1..]);
      DropBlanksAppend(x[1..], y);
      DespaceAppend(d, y);
      BlankHead(x, y, d);
    } else {
      DespaceAppend(x[1..], y);
      OtherHead(x, y);
    }
  }

  lemma BlankHead(x: string, y: string, d: string)
    requires x != [] && IsBlank(x[0]) && d == DropBlanks(x[1..])
    requires DropBlanks(x[1..] + y) == d + y
    requires Despace(d + y) == Despace(d) + Despace(y)
    ensures Despace(x + y) == Despace(x) + Despace(y)
  {
    UnfoldHead(x, y);
    ConsAssoc(' ', Despace(d), Despace(y));
  }

  lemma OtherHead(x: string, y: string)
    requires x != [] && !IsBlank(x[0])
    requires Despace(x[1..] + y) == Despace(x[1..]) + Despace(y)
    ensures Despace(x + y) == Despace(x) + Despace(y)
  {
    UnfoldHead(x, y);
    ConsAssoc(x[0], Despace(x[1..]), Despace(y));
  }

  /** One step of `Despace` on `x` and on `x + y`, which start with the same character. */
  lemma UnfoldHead(x: string, y: string)
    requires x != []
    ensures IsBlank(x[0]) ==>
              Despace(x) == [' '] + Despace(DropBlanks(x[1..])) &&
              Despace(x + y) == [' '] + Despace(DropBlanks(x[1..] + y))
    ensures !IsBlank(x[0]) ==>
              Despace(x) == [x[0]] + Despace(x[1..]) &&
              Despace(x + y) == [x[0]] + Despace(x[1..] + y)
  {
    var xy := x + y;
    assert xy[0] == x[0] && xy[1..] == x[1..] + y;
  }

  lemma ConsAssoc(c: char, p: string, q: string)
    ensures [c] + (p + q) == ([c] + p) + q
  {
  }

  /** A run of blanks at the front becomes a single space. */
  lemma DespaceRun(w: string, y: string)
    requires w != [] && forall i | 0 <= i < |w| :: IsBlank(w[i])
    requires y == [] || !IsBlank(y[0])
    ensures Despace(w + y) == " " + Despace(y)
  {
    var wy := w + y;
    assert wy[0] == w[0] && wy[1..] == w[1..] + y;
    DropBlanksRun(w[1..], y);
  }

  /**
   * A maximal run of blanks between two other characters becomes exactly one
   * space: words stay apart.
   */
  lemma DespaceCollapses(x: string, w: string, y: string)
    requires x != [] && !IsBlank(x[|x| - 1])
    requires w != [] && forall i | 0 <= i < |w| :: IsBlank(w[i])
    requires y == [] || !IsBlank(y[0])
    ensures Despace(x + w + y) == Despace(x) + " " + Despace(y)
  {
    assert x + w + y == x + (w + y);
    DespaceAppend(x, w + y);
    DespaceRun(w, y);
  }

  /** Sanitizing twice is sanitizing once. */
  lemma SanitizeIdempotent(s: string)
    ensures SanitizeMarkdown(SanitizeMarkdown(s)) == SanitizeMarkdown(s)
  {
    var t := SanitizeMarkdown(s);
    DesparkleClean(t);
    DespaceClean(t);
  }

  /** The characters that carry meaning: neither markup nor blank. */
  function Content(s: string): string
  {
    if s == [] then []
    else if IsMarkup(s[0]) || IsBlank(s[0]) then Content(s[1..])
    else [s[0]] + Content(s[1..])
  }

  lemma {:induction false} ContentDesparkle(s: string)
    ensures Content(Desparkle(s)) == Content(s)
  {
    if s != [] {
      ContentDesparkle(s[1..]);
    }
  }

  lemma {:induction false} ContentDropBlanks(s: string)
    ensures Content(DropBlanks(s)) == Content(s)
  {
    if s != [] && IsBlank(s[0]) {
      ContentDropBlanks(s[1..]);
    }
  }

  lemma {:induction false} ContentDespace(s: string)
    ensures Content(Despace(s)) == Content(s)
    decreases |s|
  {
    if s != [] {
      if IsBlank(s[0]) {
        var rest := DropBlanks(s[1..]);
        ContentDespace(rest);
        ContentDropBlanks(s[1..]);
        assert Despace(s) == [' '] + Despace(rest);
      } else {
        ContentDespace(s[1..]);
        assert Despace(s) == [s[0]] + Despace(s[1..]);
      }
    }
  }

  /** Sanitizing removes markup and blanks only: every other character survives, in order. */
  lemma SanitizeKeepsContent(s: string)
    ensures Content(SanitizeMarkdown(s)) == Content(s)
  {
    ContentDesparkle(s);
    ContentDespace(Desparkle(s));
  }
}
