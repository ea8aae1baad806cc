/**
 * The link list file: `getLinks` in index.js reads a line-delimited text
 * file, splits it on '\n', trims every line and keeps the non-empty ones.
 * An unreadable file yields the empty list.
 */
module LinkFile {
  import opened Wrappers

  /** The characters removed by JavaScript's `String.prototype.trim`:
      WhiteSpace (TAB, VT, FF, ZWNBSP and the Zs category) and LineTerminator (LF, CR, LS, PS). */
  const Whitespace: set<char> := {
    '\t', '\n', '\U{000B}', '\U{000C}', '\r', ' ', '\U{00A0}', '\U{1680}',
    '\U{2000}', '\U{2001}', '\U{2002}', '\U{2003}', '\U{2004}', '\U{2005}',
    '\U{2006}', '\U{2007}', '\U{2008}', '\U{2009}', '\U{200A}',
    '\U{2028}', '\U{2029}', '\U{202F}', '\U{205F}', '\U{3000}', '\U{FEFF}'
  }

  predicate IsWhitespace(c: char) {
    c in Whitespace
  }

  predicate AllWhitespace(s: string) {
    forall k :: 0 <= k < |s| ==> IsWhitespace(s[k])
  }

  /** No whitespace at either end. */
  predicate IsTrimmed(t: string) {
    t == [] || (!IsWhitespace(t[0]) && !IsWhitespace(t[|t| - 1]))
  }

  /** What `getLinks` can return an element of: non-empty, trimmed, on one line. */
  predicate IsLink(t: string) {
    t != [] && IsTrimmed(t) && '\n' !in t
  }

  // ---------------------------------------------------------------- split

  /** The inverse of splitting: the lines joined with '\n' between them. */
  function JoinLines(lines: seq<string>): string {
    if |lines| == 0 then ""
    else if |lines| == 1 then lines[0]
    else lines[0] + "\n" + JoinLines(lines[1..])
  }

  /** `s.split('\n')`: always at least one piece, no piece holds '\n',
      and joining the pieces gives `s` back. */
  function SplitLines(s: string): (lines: seq<string>)
    ensures |lines| >= 1
    ensures forall i :: 0 <= i < |lines| ==> '\n' !in lines[i]
    ensures JoinLines(lines) == s
    decreases |s|
  {
    if s == [] then [""]
    else
      var rest := SplitLines(s[1..]);
      if s[0] == '\n' then
        assert JoinLines([""] + rest) == "" + "\n" + JoinLines(rest);
        [""] + rest
      else
        var lines := [[s[0]] + rest[0]] + rest[1..];
        assert lines[1..] == rest[1..];
        assert JoinLines(lines) == [s[0]] + JoinLines(rest);
        lines
  }

  /** Splitting is the only way to cut `s` into '\n'-free pieces that join back to `s`. */
  lemma {:induction false} SplitUnique(s: string, lines: seq<string>)
    requires |lines| >= 1
    requires forall i :: 0 <= i < |lines| ==> '\n' !in lines[i]
    requires JoinLines(lines) == s
    ensures lines == SplitLines(s)
    decreases |s|
  {
    if |lines| > 1 {
      assert JoinLines(lines) == lines[0] + "\n" + JoinLines(lines[1..]);
    }
    if s == [] {
      assert |lines| == 1;
    } else if |lines| == 1 {
      var t := lines[0];
      assert t == s && t[0] in t;
      var tail := [t[1..]];
      SplitUnique(s[1..], tail);
      assert t == [s[0]] + t[1..];
      assert lines == [[s[0]] + tail[0]] + tail[1..];
    } else {
      var rest := lines[1..];
      assert s == lines[0] + "\n" + JoinLines(rest);
      if lines[0] == [] {
        assert s[0] == '\n';
        assert s[1..] == JoinLines(rest);
        SplitUnique(s[1..], rest);
        assert lines == [""] + rest;
      } else {
        var t := lines[0];
        assert s[0] == t[0] && t[0] in t;
        var lines' := [t[1..]] + rest;
        assert lines'[1..] == rest;
        assert JoinLines(lines') == t[1..] + "\n" + JoinLines(rest);
        assert s[1..] == JoinLines(lines');
        SplitUnique(s[1..], lines');
        assert t == [s[0]] + t[1..];
        assert lines == [[s[0]] + lines'[0]] + lines'[1..];
      }
    }
  }

  /** Splitting undoes joining. */
  lemma SplitJoin(lines: seq<string>)
    requires |lines| >= 1
    requires forall i :: 0 <= i < |lines| ==> '\n' !in lines[i]
    ensures SplitLines(JoinLines(lines)) == lines
  {
    SplitUnique(JoinLines(lines), lines);
  }

  lemma {:induction false} JoinAppend(a: seq<string>, b: seq<string>)
    requires |a| >= 1 && |b| >= 1
    ensures JoinLines(a + b) == JoinLines(a) + "\n" + JoinLines(b)
    decreases |a|
  {
    if |a| == 1 {
      assert (a + b)[1..] == b;
    } else {
      assert (a + b)[1..] == a[1..] + b;
      JoinAppend(a[1..], b);
    }
  }

  /** Splitting text at a '\n' splits its lines there. */
  lemma SplitAppend(a: string, b: string)
    ensures SplitLines(a + "\n" + b) == SplitLines(a) + SplitLines(b)
  {
    var la, lb := SplitLines(a), SplitLines(b);
    JoinAppend(la, lb);
    SplitUnique(a + "\n" + b, la + lb);
  }

  // ----------------------------------------------------------------- trim

  /** Drop leading whitespace: what is left does not start with whitespace. */
  function TrimStart(s: string): (r: string)
    ensures |r| <= |s|
    ensures r != [] ==> !IsWhitespace(r[0])
    decreases |s|
  {
    if s != [] && IsWhitespace(s[0]) then TrimStart(s[1..]) else s
  }

  /** Drop trailing whitespace: what is left does not end with whitespace. */
  function TrimEnd(s: string): (r: string)
    ensures |r| <= |s|
    ensures r != [] ==> !IsWhitespace(r[|r| - 1])
    decreases |s|
  {
    if s != [] && IsWhitespace(s[|s| - 1]) then TrimEnd(s[..|s| - 1]) else s
  }

  /** TrimStart keeps a suffix of `s` and drops only whitespace. */
  lemma {:induction false} TrimStartDrops(s: string)
    ensures var r := TrimStart(s);
      r == s[|s| - |r|..] && AllWhitespace(s[..|s| - |r|])
    decreases |s|
  {
    if s != [] && IsWhitespace(s[0]) {
      TrimStartDrops(s[1..]);
      var r := TrimStart(s);
      assert s[..|s| - |r|] == [s[0]] + s[1..][..|s| - 1 - |r|];
    }
  }

  /** TrimEnd keeps a prefix of `s` and drops only whitespace. */
  lemma {:induction false} TrimEndDrops(s: string)
    ensures var r := TrimEnd(s);
      r == s[..|r|] && AllWhitespace(s[|r|..])
    decreases |s|
  {
    if s != [] && IsWhitespace(s[|s| - 1]) {
      TrimEndDrops(s[..|s| - 1]);
      var r := TrimEnd(s);
      assert s[|r|..] == s[..|s| - 1][|r|..] + [s[|s| - 1]];
    }
  }

  /** `line.trim()`: a trimmed string no longer than `s`, and without a line break
      when `s` has none. */
  function Trim(s: string): (r: string)
    ensures IsTrimmed(r) && |r| <= |s|
    ensures '\n' !in s ==> '\n' !in r
  {
    var u := TrimStart(s);
    var r := TrimEnd(u);
    TrimStartDrops(s);
    TrimEndDrops(u);
    assert r != [] ==> r[0] == u[0];
    assert '\n' in r ==> '\n' in u by {
      if '\n' in r {
        var k :| 0 <= k < |r| && r[k] == '\n';
        assert u[k] == '\n';
      }
    }
    assert '\n' in u ==> '\n' in s by {
      if '\n' in u {
        var k :| 0 <= k < |u| && u[k] == '\n';
        assert s[|s| - |u| + k] == '\n';
      }
    }
    r
  }

  /** Trimming a trimmed string changes nothing. */
  lemma TrimTrimmed(s: string)
    requires IsTrimmed(s)
    ensures Trim(s) == s
  {
  }

  lemma {:induction false} TrimStartPadded(w: string, t: string)
    requires AllWhitespace(w)
    requires t == [] || !IsWhitespace(t[0])
    ensures TrimStart(w + t) == t
    decreases |w|
  {
    if w != [] {
      assert (w + t)[1..] == w[1..] + t;
      TrimStartPadded(w[1..], t);
    } else {
      assert w + t == t;
    }
  }

  lemma {:induction false} TrimEndPadded(t: string, w: string)
    requires AllWhitespace(w)
    requires t == [] || !IsWhitespace(t[|t| - 1])
    ensures TrimEnd(t + w) == t
    decreases |w|
  {
    if w != [] {
      assert (t + w)[..|t + w| - 1] == t + w[..|w| - 1];
      TrimEndPadded(t, w[..|w| - 1]);
    } else {
      assert t + w == t;
    }
  }

  /** Trim removes exactly the surrounding whitespace: whatever whitespace pads a
      trimmed string on either side, trimming gives that string back. */
  lemma TrimPadded(w1: string, t: string, w2: string)
    requires AllWhitespace(w1) && AllWhitespace(w2) && IsTrimmed(t)
    ensures Trim(w1 + t + w2) == t
  {
    if t == [] {
      assert w1 + t + w2 == w1 + w2;
      TrimStartPadded(w1 + w2, "");
      assert w1 + w2 + "" == w1 + w2;
      assert TrimStart(w1 + w2) == "";
    } else {
      assert w1 + t + w2 == w1 + (t + w2);
      TrimStartPadded(w1, t + w2);
      TrimEndPadded(t, w2);
    }
  }

  // ------------------------------------------------------ map and filter

  /** `.map(line => line.trim())` */
  function TrimAll(lines: seq<string>): (r: seq<string>)
    ensures |r| == |lines|
    ensures forall i :: 0 <= i < |r| ==> r[i] == Trim(lines[i])
    decreases |lines|
  {
    if lines == [] then [] else [Trim(lines[0])] + TrimAll(lines[1..])
  }

  lemma {:induction false} TrimAllAppend(a: seq<string>, b: seq<string>)
    ensures TrimAll(a + b) == TrimAll(a) + TrimAll(b)
    decreases |a|
  {
    if a == [] {
      assert a + b == b;
    } else {
      assert (a + b)[1..] == a[1..] + b;
      TrimAllAppend(a[1..], b);
    }
  }

  /** `.filter(line => line.length > 0)` */
  function DropEmpty(xs: seq<string>): (r: seq<string>)
    ensures |r| <= |xs|
    ensures forall i :: 0 <= i < |r| ==> r[i] != []
  {
    if xs == [] then []
    else if xs[0] == [] then DropEmpty(xs[1..])
    else [xs[0]] + DropEmpty(xs[1..])
  }

  /** Filtering a concatenation filters each part, in order. */
  lemma {:induction false} DropEmptyAppend(a: seq<string>, b: seq<string>)
    ensures DropEmpty(a + b) == DropEmpty(a) + DropEmpty(b)
    decreases |a|
  {
    if a != [] {
      assert (a + b)[1..] == a[1..] + b;
      DropEmptyAppend(a[1..], b);
    } else {
      assert a + b == b;
    }
  }

  lemma {:induction false} DropEmptyKeepsLinks(xs: seq<string>)
    requires forall i :: 0 <= i < |xs| ==> xs[i] != []
    ensures DropEmpty(xs) == xs
    decreases |xs|
  {
    if xs != [] {
      DropEmptyKeepsLinks(xs[1..]);
    }
  }

  // ------------------------------------------------------------- getLinks

  /** The links in the text of the file: its lines, trimmed, blanks removed. */
  function ParseLinks(text: string): (links: seq<string>)
    ensures forall i :: 0 <= i < |links| ==> IsLink(links[i])
  {
    var lines := SplitLines(text);
    var trimmed := TrimAll(lines);
    var links := DropEmpty(trimmed);
    forall i | 0 <= i < |links| ensures IsLink(links[i]) {
      DropEmptyMembers(trimmed, links[i]);
      TrimAllMembers(lines, links[i]);
    }
    links
  }

  /** `getLinks()`: the file's content, or `None` when reading it throws. */
  function GetLinks(file: Option<string>): (links: seq<string>)
    ensures file.None? ==> links == []
    ensures forall i :: 0 <= i < |links| ==> IsLink(links[i])
  {
    match file
    case None => []
    case Some(text) => ParseLinks(text)
  }

  /** Some line trims to `t`. */
  predicate SomeLineTrimsTo(lines: seq<string>, t: string) {
    exists i :: 0 <= i < |lines| && Trim(lines[i]) == t
  }

  /** A link is returned exactly when some line of the text trims to it. */
  lemma ParseLinksMembers(text: string, t: string)
    ensures t in ParseLinks(text) <==> t != [] && SomeLineTrimsTo(SplitLines(text), t)
  {
    var lines := SplitLines(text);
    assert ParseLinks(text) == DropEmpty(TrimAll(lines));
    DropEmptyMembers(TrimAll(lines), t);
    TrimAllMembers(lines, t);
  }

  lemma {:induction false} TrimAllMembers(lines: seq<string>, t: string)
    ensures t in TrimAll(lines) <==> SomeLineTrimsTo(lines, t)
    decreases |lines|
  {
    if lines != [] {
      TrimAllMembers(lines[1..], t);
      assert TrimAll(lines) == [Trim(lines[0])] + TrimAll(lines[1..]);
      if SomeLineTrimsTo(lines, t) {
        var i :| 0 <= i < |lines| && Trim(lines[i]) == t;
        if i > 0 {
          assert lines[1..][i - 1] == lines[i];
          assert SomeLineTrimsTo(lines[1..], t);
        }
      }
      if SomeLineTrimsTo(lines[1..], t) {
        var i :| 0 <= i < |lines[1..]| && Trim(lines[1..][i]) == t;
        assert lines[i + 1] == lines[1..][i];
      }
    }
  }

  lemma {:induction false} DropEmptyMembers(xs: seq<string>, t: string)
    ensures t in DropEmpty(xs) <==> t != [] && t in xs
    decreases |xs|
  {
    if xs != [] {
      DropEmptyMembers(xs[1..], t);
      assert xs == [xs[0]] + xs[1..];
    }
  }

  /** A text without line breaks holds one link, its trimmed content, or none. */
  lemma ParseOneLine(line: string)
    requires '\n' !in line
    ensures ParseLinks(line) == if Trim(line) == [] then [] else [Trim(line)]
  {
    SplitUnique(line, [line]);
    assert TrimAll([line]) == [Trim(line)];
  }

  /** Cutting the file at a line break cuts its links there, order kept. */
  lemma ParseAppend(a: string, b: string)
    ensures ParseLinks(a + "\n" + b) == ParseLinks(a) + ParseLinks(b)
  {
    var la, lb := SplitLines(a), SplitLines(b);
    SplitAppend(a, b);
    assert SplitLines(a + "\n" + b) == la + lb;
    var ta, tb := TrimAll(la), TrimAll(lb);
    TrimAllAppend(la, lb);
    DropEmptyAppend(ta, tb);
    assert ParseLinks(a + "\n" + b) == DropEmpty(TrimAll(la + lb));
    assert ParseLinks(a) == DropEmpty(ta);
    assert ParseLinks(b) == DropEmpty(tb);
  }

  /** Writing links one per line and reading the file back gives the same links. */
  lemma ParseJoin(links: seq<string>)
    requires forall i :: 0 <= i < |links| ==> IsLink(links[i])
    ensures ParseLinks(JoinLines(links)) == links
  {
    var text := JoinLines(links);
    assert ParseLinks(text) == DropEmpty(TrimAll(SplitLines(text)));
    if links == [] {
      assert SplitLines("") == [""];
      assert TrimAll([""]) == [""];
    } else {
      SplitJoin(links);
      TrimAllTrimmed(links);
      DropEmptyKeepsLinks(links);
    }
  }

  lemma {:induction false} TrimAllTrimmed(xs: seq<string>)
    requires forall i :: 0 <= i < |xs| ==> IsTrimmed(xs[i])
    ensures TrimAll(xs) == xs
    decreases |xs|
  {
    if xs != [] {
      TrimTrimmed(xs[0]);
      TrimAllTrimmed(xs[1..]);
    }
  }

  /** Reading is idempotent: re-writing the links read, one per line, changes nothing. */
  lemma ParseIdempotent(text: string)
    ensures ParseLinks(JoinLines(ParseLinks(text))) == ParseLinks(text)
  {
    ParseJoin(ParseLinks(text));
  }
}
