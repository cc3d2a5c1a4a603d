/** The source text of ECMAScript regular expressions, read only as far as
    needed to count capturing groups.

    Capturing groups are numbered by the position of their opening parenthesis
    in the source (section 22.2 of ECMA-262). A `(` that is not escaped by a
    backslash and not inside a character class `[...]` opens one, unless it is
    followed by `?`: then it opens a non-capturing group `(?:`, a lookahead
    `(?=`, `(?!` or a lookbehind `(?<=`, `(?<!`, none of which captures, or a
    named group `(?<name>`, which does capture. No matching semantics and no
    check that the source is a valid pattern are modelled here.
*/
module RegexSource {

  /** Where the scanner stands: outside or inside a character class, and
      whether the previous character was an escaping backslash. */
  datatype Mode = Normal | InClass | Escaped | EscapedInClass

  datatype Scanned = Scanned(groups: nat, mode: Mode)

  /** Whether the `(` at `s[i]` opens a capturing group: it is not followed by
      `?`, or it is followed by `?<` and then neither `=` nor `!`. When the text
      ends before that is decided, what follows is not known: a final `(` and
      a final `(?<` are counted, a final `(?` is not. */
  predicate OpensGroup(s: string, i: nat)
    requires i < |s|
  {
    || i + 1 == |s|
    || s[i + 1] != '?'
    || (i + 2 < |s| && s[i + 2] == '<' && (i + 3 == |s| || (s[i + 3] != '=' && s[i + 3] != '!')))
  }

  /** The capturing groups opened in `s[i..]` when scanning starts in mode `m`,
      and the mode at the end. */
  function Scan(s: string, i: nat, m: Mode): Scanned
    requires i <= |s|
    decreases |s| - i
  {
    if i == |s| then Scanned(0, m)
    else
      var c := s[i];
      match m
      case Normal =>
        if c == '\\' then Scan(s, i + 1, Escaped)
        else if c == '[' then Scan(s, i + 1, InClass)
        else if c == '(' then
          var rest := Scan(s, i + 1, Normal);
          Scanned((if OpensGroup(s, i) then 1 else 0) + rest.groups, rest.mode)
        else Scan(s, i + 1, Normal)
      case Escaped => Scan(s, i + 1, Normal)
      case InClass =>
        if c == '\\' then Scan(s, i + 1, EscapedInClass)
        else if c == ']' then Scan(s, i + 1, Normal)
        else Scan(s, i + 1, InClass)
      case EscapedInClass => Scan(s, i + 1, InClass)
  }

  /** The number of capturing groups of a regular expression source. */
  function CaptureCount(s: string): nat {
    Scan(s, 0, Normal).groups
  }

  /** `s` may be followed by more source without changing how that source is
      read: it leaves no class open and no backslash pending, and it does not
      start with `?`, so the parenthesis put before it opens a capturing group. */
  predicate Wrappable(s: string) {
    Scan(s, 0, Normal).mode == Normal && (s == [] || s[0] != '?')
  }

  /** One capturing group around a fragment. */
  function Wrap(f: string): string {
    "(" + f + ")"
  }

  /** Scanning a suffix of a longer text is scanning the suffix alone. */
  lemma {:induction false} ScanSuffix(p: string, s: string, j: nat, m: Mode)
    requires j <= |s|
    ensures Scan(p + s, |p| + j, m) == Scan(s, j, m)
    decreases |s| - j
  {
    var ps := p + s;
    if j < |s| {
      assert ps[|p| + j] == s[j];
      assert OpensGroup(ps, |p| + j) == OpensGroup(s, j) by {
        assert j + 1 < |s| ==> ps[|p| + j + 1] == s[j + 1];
        assert j + 2 < |s| ==> ps[|p| + j + 2] == s[j + 2];
        assert j + 3 < |s| ==> ps[|p| + j + 3] == s[j + 3];
      }
      ScanSuffix(p, s, j + 1, Normal);
      ScanSuffix(p, s, j + 1, InClass);
      ScanSuffix(p, s, j + 1, Escaped);
      ScanSuffix(p, s, j + 1, EscapedInClass);
    }
  }

  /** `b` cannot change how an unfinished `(`, `(?` or `(?<` at the end of
      the text before it is read. */
  predicate NeutralStart(b: string) {
    b == [] || (b[0] != '?' && b[0] != '<' && b[0] != '=' && b[0] != '!')
  }

  /** Scanning `a + b` is scanning `a` and then `b` from the mode `a` ends in,
      provided `b` starts neutrally. */
  lemma {:induction false} ScanConcat(a: string, b: string, i: nat, m: Mode)
    requires i <= |a|
    requires NeutralStart(b)
    ensures var r := Scan(a, i, m);
            Scan(a + b, i, m) == Scanned(r.groups + Scan(b, 0, r.mode).groups, Scan(b, 0, r.mode).mode)
    decreases |a| - i
  {
    var ab := a + b;
    if i == |a| {
      ScanSuffix(a, b, 0, m);
    } else {
      assert ab[i] == a[i];
      assert OpensGroup(ab, i) == OpensGroup(a, i) by {
        assert i + 1 < |a| ==> ab[i + 1] == a[i + 1];
        assert i + 2 < |a| ==> ab[i + 2] == a[i + 2];
        assert i + 3 < |a| ==> ab[i + 3] == a[i + 3];
        assert b != [] ==> ab[|a|] == b[0];
      }
      ScanConcat(a, b, i + 1, Normal);
      ScanConcat(a, b, i + 1, InClass);
      ScanConcat(a, b, i + 1, Escaped);
      ScanConcat(a, b, i + 1, EscapedInClass);
    }
  }

  /** Wrapping a wrappable fragment adds exactly one capturing group and
      leaves the scanner outside any class. */
  lemma WrapScan(f: string)
    requires Wrappable(f)
    ensures Scan(Wrap(f), 0, Normal) == Scanned(1 + CaptureCount(f), Normal)
  {
    var w := Wrap(f);
    assert w == "(" + (f + ")");
    assert w[1] != '?' by {
      if f == [] { assert w[1] == ')'; } else { assert w[1] == f[0]; }
    }
    ScanSuffix("(", f + ")", 0, Normal);
    ScanConcat(f, ")", 0, Normal);
    assert Scan(")", 0, Normal) == Scanned(0, Normal);
  }

  /** A named group captures; a non-capturing group does not. */
  lemma NamedGroupCaptures()
    ensures CaptureCount("(?<n>x)") == 1 && CaptureCount("(?:x)") == 0
  {
    assert Scan("(?<n>x)", 1, Normal) == Scanned(0, Normal);
  }

  /** Lookbehinds do not capture. */
  lemma LookbehindsDoNotCapture()
    ensures CaptureCount("(?<=x)") == 0 && CaptureCount("(?<!x)") == 0
  {
    assert Scan("(?<=x)", 1, Normal) == Scanned(0, Normal);
    assert Scan("(?<!x)", 1, Normal) == Scanned(0, Normal);
  }

  /** Lookaheads do not capture, nor does a `(` inside a class or escaped. */
  lemma LookaheadsDoNotCapture()
    ensures CaptureCount("(?=x)") == 0 && CaptureCount("(?!x)") == 0
    ensures CaptureCount("[(]\\(") == 0
  {
  }

  /** Text with no `(`, `[` or `\`: it opens no group and leaves no state. */
  predicate PlainText(s: string) {
    forall i :: 0 <= i < |s| ==> s[i] != '(' && s[i] != '[' && s[i] != '\\'
  }

  lemma {:induction false} PlainScan(s: string, i: nat)
    requires i <= |s|
    requires PlainText(s)
    ensures Scan(s, i, Normal) == Scanned(0, Normal)
    decreases |s| - i
  {
    if i < |s| {
      PlainScan(s, i + 1);
    }
  }

  /** The characters ECMAScript regular expressions give meaning to
      (SyntaxCharacter, section 22.2.1 of ECMA-262). */
  const SyntaxCharacters: string := "^$\\.*+?()[]{}|"

  /** Literal text as a regular-expression source that matches it verbatim:
      each syntax character gets a backslash. */
  function Escape(t: string): (r: string)
    ensures r == [] || r[0] == '\\' || r[0] !in SyntaxCharacters
  {
    if t == [] then []
    else (if t[0] in SyntaxCharacters then ['\\', t[0]] else [t[0]]) + Escape(t[1..])
  }

  /** Drops the escaping backslashes again. */
  function Unescape(r: string): string
    decreases |r|
  {
    if r == [] then []
    else if r[0] == '\\' && |r| >= 2 then [r[1]] + Unescape(r[2..])
    else [r[0]] + Unescape(r[1..])
  }

  /** Escaping loses nothing of the literal text. */
  lemma {:induction false} UnescapeEscape(t: string)
    ensures Unescape(Escape(t)) == t
  {
    if t != [] {
      var rest := Escape(t[1..]);
      UnescapeEscape(t[1..]);
      if t[0] in SyntaxCharacters {
        var r := ['\\', t[0]] + rest;
        assert r[2..] == rest;
      } else {
        var r := [t[0]] + rest;
        assert r[1..] == rest;
      }
    }
  }

  /** Escaped text opens no capturing group and can be wrapped. */
  lemma {:induction false} EscapeScan(t: string)
    ensures Scan(Escape(t), 0, Normal) == Scanned(0, Normal)
    ensures Wrappable(Escape(t))
  {
    if t != [] {
      var rest := Escape(t[1..]);
      EscapeScan(t[1..]);
      assert rest == [] || rest[0] != '?';
      var piece := if t[0] in SyntaxCharacters then ['\\', t[0]] else [t[0]];
      var r := piece + rest;
      ScanSuffix(piece, rest, 0, Normal);
      if t[0] in SyntaxCharacters {
        assert r[0] == '\\';
        assert Scan(r, 0, Normal) == Scan(r, 1, Escaped) == Scan(r, 2, Normal);
      } else {
        assert r[0] == t[0] && t[0] != '(' && t[0] != '[' && t[0] != '\\';
        assert Scan(r, 0, Normal) == Scan(r, 1, Normal);
      }
    }
  }
}
