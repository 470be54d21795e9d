/**
 * The text normalizer applied to every inbound message before it is routed:
 * deletion of platform markup tokens and code fences, deletion of URLs, then
 * collapse of whitespace runs and a strip of both ends (main.py:253-266).
 *
 * Python's regular expressions are Unicode-aware; this model uses ASCII
 * classes for `\s`, `\d` and `\w`, and ASCII upper-casing.
 */
module Text {
  import opened Options

  // ---------------------------------------------------------------- classes

  /**
   * Whitespace as `\s` and `str.strip()` see it, restricted to ASCII: the
   * space, tab, line feed, vertical tab, form feed, carriage return and the
   * four separators U+001C to U+001F.
   */
  predicate IsSpace(c: char) {
    c == ' ' || '\t' <= c <= '\r' || '\U{1C}' <= c <= '\U{1F}'
  }

  predicate IsDigit(c: char) { '0' <= c <= '9' }

  predicate IsWordChar(c: char) {
    IsDigit(c) || 'a' <= c <= 'z' || 'A' <= c <= 'Z' || c == '_'
  }

  /** Python's `not s.strip()`: the text holds no non-whitespace character. */
  predicate IsBlank(s: string) {
    forall i :: 0 <= i < |s| ==> IsSpace(s[i])
  }

  /** The non-whitespace characters of `s`, in order. */
  function NonSpace(s: string): string {
    if s == [] then []
    else (if IsSpace(s[0]) then [] else [s[0]]) + NonSpace(s[1..])
  }

  /** No two adjacent characters are both whitespace. */
  predicate NoDoubleSpace(s: string) {
    forall i :: 0 <= i < |s| - 1 ==> !(IsSpace(s[i]) && IsSpace(s[i + 1]))
  }

  /** Every whitespace character present is a plain space. */
  predicate OnlyPlainSpaces(s: string) {
    forall i :: 0 <= i < |s| && IsSpace(s[i]) ==> s[i] == ' '
  }

  lemma {:induction false} NonSpaceAppend(a: string, b: string)
    ensures NonSpace(a + b) == NonSpace(a) + NonSpace(b)
    decreases |a|
  {
    if a == [] {
      assert a + b == b;
    } else {
      assert (a + b)[1..] == a[1..] + b;
      NonSpaceAppend(a[1..], b);
    }
  }

  lemma {:induction false} NonSpaceEmptyIffBlank(s: string)
    ensures NonSpace(s) == [] <==> IsBlank(s)
    decreases |s|
  {
    if s != [] {
      NonSpaceEmptyIffBlank(s[1..]);
      if IsBlank(s[1..]) && IsSpace(s[0]) {
        forall i | 0 <= i < |s| ensures IsSpace(s[i]) {
          if i > 0 { assert s[i] == s[1..][i - 1]; }
        }
      }
      if IsBlank(s) {
        forall i | 0 <= i < |s| - 1 ensures IsSpace(s[1..][i]) {
          assert s[1..][i] == s[i + 1];
        }
      }
    }
  }

  // ------------------------------------------- whitespace collapse and strip

  /** The length of the whitespace run that opens `s`. */
  function LeadingSpaces(s: string): (n: nat)
    ensures n <= |s|
    ensures forall i :: 0 <= i < n ==> IsSpace(s[i])
    ensures n == |s| || !IsSpace(s[n])
  {
    if s != [] && IsSpace(s[0]) then 1 + LeadingSpaces(s[1..]) else 0
  }

  /** The length of the whitespace run that closes `s`. */
  function TrailingSpaces(s: string): (n: nat)
    ensures n <= |s|
    ensures forall i :: |s| - n <= i < |s| ==> IsSpace(s[i])
    ensures n == |s| || !IsSpace(s[|s| - n - 1])
  {
    if s != [] && IsSpace(s[|s| - 1]) then 1 + TrailingSpaces(s[..|s| - 1]) else 0
  }

  /** Strip of the leading whitespace. */
  function SkipSpaces(s: string): (r: string)
    ensures |r| <= |s|
    ensures r == [] || !IsSpace(r[0])
    ensures s != [] && IsSpace(s[0]) ==> |r| < |s|
  {
    s[LeadingSpaces(s)..]
  }

  /** The strip keeps every non-whitespace character. */
  lemma SkipSpacesKeepsNonSpace(s: string)
    ensures NonSpace(SkipSpaces(s)) == NonSpace(s)
  {
    SplitOffBlank(s, LeadingSpaces(s));
  }

  /** Cutting `s` at `k` where one side is whitespace only: NonSpace sees the other. */
  lemma SplitOffBlank(s: string, k: nat)
    requires k <= |s|
    requires IsBlank(s[..k]) || IsBlank(s[k..])
    ensures IsBlank(s[..k]) ==> NonSpace(s[k..]) == NonSpace(s)
    ensures IsBlank(s[k..]) ==> NonSpace(s[..k]) == NonSpace(s)
  {
    assert s[..k] + s[k..] == s;
    NonSpaceAppend(s[..k], s[k..]);
    NonSpaceEmptyIffBlank(s[..k]);
    NonSpaceEmptyIffBlank(s[k..]);
  }

  /** Strip of the trailing whitespace. */
  function DropTrailingSpaces(s: string): (r: string)
    ensures |r| <= |s| && r == s[..|r|]
    ensures r == [] || !IsSpace(r[|r| - 1])
  {
    s[..|s| - TrailingSpaces(s)]
  }

  /** The strip keeps every non-whitespace character. */
  lemma DropTrailingSpacesKeepsNonSpace(s: string)
    ensures NonSpace(DropTrailingSpaces(s)) == NonSpace(s)
  {
    SplitOffBlank(s, |s| - TrailingSpaces(s));
  }

  /** `re.sub(r'\s+', ' ', s)`: every maximal whitespace run becomes one space. */
  function Squeeze(s: string): (r: string)
    ensures OnlyPlainSpaces(r)
    ensures NoDoubleSpace(r)
    ensures s != [] && !IsSpace(s[0]) ==> r != [] && r[0] == s[0]
    ensures s != [] && IsSpace(s[0]) ==> r != [] && r[0] == ' '
    decreases |s|
  {
    if s == [] then []
    else if IsSpace(s[0]) then
      var q := Squeeze(SkipSpaces(s));
      PrependKeepsShape(' ', q);
      [' '] + q
    else
      var q := Squeeze(s[1..]);
      PrependKeepsShape(s[0], q);
      [s[0]] + q
  }

  /** Squeezing keeps the non-whitespace characters in order. */
  lemma {:induction false} SqueezeKeepsNonSpace(s: string)
    ensures NonSpace(Squeeze(s)) == NonSpace(s)
    decreases |s|
  {
    if s != [] {
      var rest := if IsSpace(s[0]) then SkipSpaces(s) else s[1..];
      var q := Squeeze(rest);
      SqueezeKeepsNonSpace(rest);
      assert ([Squeeze(s)[0]] + q)[1..] == q;
      if IsSpace(s[0]) {
        SkipSpacesKeepsNonSpace(s);
      }
    }
  }

  lemma PrependKeepsShape(c: char, t: string)
    requires OnlyPlainSpaces(t) && NoDoubleSpace(t)
    requires IsSpace(c) ==> c == ' ' && (t == [] || !IsSpace(t[0]))
    ensures OnlyPlainSpaces([c] + t) && NoDoubleSpace([c] + t)
  {
    var r := [c] + t;
    forall i | 0 <= i < |r| - 1 ensures !(IsSpace(r[i]) && IsSpace(r[i + 1])) {
      if i > 0 { assert r[i] == t[i - 1] && r[i + 1] == t[i]; }
    }
    forall i | 0 <= i < |r| && IsSpace(r[i]) ensures r[i] == ' ' {
      if i > 0 { assert r[i] == t[i - 1]; }
    }
  }

  /** A slice of a text keeps its whitespace-shape properties. */
  lemma SliceKeepsShape(t: string, lo: nat, hi: nat)
    requires lo <= hi <= |t|
    requires OnlyPlainSpaces(t) && NoDoubleSpace(t)
    ensures OnlyPlainSpaces(t[lo..hi]) && NoDoubleSpace(t[lo..hi])
  {
    var r := t[lo..hi];
    forall i | 0 <= i < |r| - 1 ensures !(IsSpace(r[i]) && IsSpace(r[i + 1])) {
      assert r[i] == t[lo + i] && r[i + 1] == t[lo + i + 1];
    }
    forall i | 0 <= i < |r| && IsSpace(r[i]) ensures r[i] == ' ' {
      assert r[i] == t[lo + i];
    }
  }

  /**
   * `re.sub(r'\s+', ' ', s).strip()` (main.py:265): no whitespace at either
   * end, only plain spaces inside and never two in a row, the non-whitespace
   * characters kept in order, and "" exactly for a blank input. It is
   * Python's `" ".join(s.split())`: the words of `s`, one space between two.
   */
  function CollapseWhitespace(s: string): (r: string)
    ensures r == [] || (!IsSpace(r[0]) && !IsSpace(r[|r| - 1]))
    ensures OnlyPlainSpaces(r) && NoDoubleSpace(r)
    ensures NonSpace(r) == NonSpace(s)
    ensures r == [] <==> IsBlank(s)
    ensures r == Join(Words(s))
  {
    var q := Squeeze(s);
    var a := SkipSpaces(q);
    var r := DropTrailingSpaces(a);
    CollapseIsJoin(s);
    CollapseShape(q);
    SqueezeKeepsNonSpace(s);
    SkipSpacesKeepsNonSpace(q);
    DropTrailingSpacesKeepsNonSpace(a);
    assert r != [] ==> r[0] == a[0];
    NonSpaceEmptyIffBlank(s);
    NonSpaceEmptyIffBlank(r);
    r
  }

  lemma CollapseShape(q: string)
    requires OnlyPlainSpaces(q) && NoDoubleSpace(q)
    ensures OnlyPlainSpaces(DropTrailingSpaces(SkipSpaces(q)))
    ensures NoDoubleSpace(DropTrailingSpaces(SkipSpaces(q)))
  {
    var a := SkipSpaces(q);
    SliceKeepsShape(q, |q| - |a|, |q|);
    assert a == q[|q| - |a|..|q|];
    var r := DropTrailingSpaces(a);
    SliceKeepsShape(a, 0, |r|);
    assert r == a[0..|r|];
  }

  // ------------------------------------------ words, the reference reading

  /** No character of `w` is whitespace. */
  predicate NoSpaceIn(w: string) {
    forall i :: 0 <= i < |w| ==> !IsSpace(w[i])
  }

  /** `s.split()`: the maximal runs of non-whitespace characters, in order. */
  function Words(s: string): seq<string>
    decreases |s|
  {
    var t := SkipSpaces(s);
    if t == [] then []
    else
      var n := Span(t, NonSpaces);
      assert InClass(t[0], NonSpaces);
      [t[..n]] + Words(t[n..])
  }

  /** Every word is a non-empty run without whitespace. */
  lemma {:induction false} WordsAreRuns(s: string)
    ensures forall k :: 0 <= k < |Words(s)| ==> Words(s)[k] != [] && NoSpaceIn(Words(s)[k])
    decreases |s|
  {
    var t := SkipSpaces(s);
    if t != [] {
      var n := Span(t, NonSpaces);
      var w := t[..n];
      assert InClass(t[0], NonSpaces);
      WordsAreRuns(t[n..]);
      forall i | 0 <= i < |w| ensures !IsSpace(w[i]) {
        assert w[i] == t[i] && InClass(t[i], NonSpaces);
      }
      var ws, rest := Words(s), Words(t[n..]);
      assert ws == [w] + rest;
      forall k | 0 < k < |ws| ensures ws[k] == rest[k - 1] {
      }
    }
  }

  /** `" ".join(ws)`. */
  function Join(ws: seq<string>): string {
    if ws == [] then [] else if |ws| == 1 then ws[0] else ws[0] + " " + Join(ws[1..])
  }

  /** Words joined by single spaces neither start nor end with whitespace. */
  lemma {:induction false} JoinEnds(ws: seq<string>)
    requires forall k :: 0 <= k < |ws| ==> ws[k] != [] && NoSpaceIn(ws[k])
    ensures var j := Join(ws);
      (j == [] <==> ws == []) && (j != [] ==> !IsSpace(j[0]) && !IsSpace(j[|j| - 1]))
    decreases |ws|
  {
    if |ws| > 1 {
      JoinEnds(ws[1..]);
      var j := Join(ws);
      assert j[0] == ws[0][0];
      assert j[|j| - 1] == Join(ws[1..])[|Join(ws[1..])| - 1];
    }
  }

  /** The space `re.sub` leaves for whitespace at the start of `s`. */
  function LeadGap(s: string): string {
    if s != [] && IsSpace(s[0]) then " " else []
  }

  /** The space `re.sub` leaves for whitespace at the end of `s`, after a word. */
  function TrailGap(s: string): string {
    if Words(s) != [] && IsSpace(s[|s| - 1]) then " " else []
  }

  /** A text without words is all whitespace. */
  lemma NoWordsBlank(s: string)
    requires Words(s) == [] && s != []
    ensures IsSpace(s[|s| - 1])
  {
    assert SkipSpaces(s) == [];
  }

  /** Squeezing a run of non-whitespace characters copies it. */
  lemma {:induction false} SqueezeWord(s: string, n: nat)
    requires n <= |s| && forall i :: 0 <= i < n ==> !IsSpace(s[i])
    ensures Squeeze(s) == s[..n] + Squeeze(s[n..])
    decreases n
  {
    if n > 0 {
      SqueezeWord(s[1..], n - 1);
      assert s[1..][..n - 1] == s[1..n] && s[1..][n - 1..] == s[n..];
      assert [s[0]] + s[1..n] == s[..n];
    }
  }

  lemma JoinCons(w: string, ws: seq<string>)
    ensures Join([w] + ws) == if ws == [] then w else w + " " + Join(ws)
  {
    assert ([w] + ws)[1..] == ws;
  }

  /**
   * `re.sub(r'\s+', ' ', s)` is the words of `s` joined by single spaces,
   * with one more space for each end of `s` that is whitespace.
   */
  lemma {:induction false} SqueezeWords(s: string)
    ensures Squeeze(s) == LeadGap(s) + Join(Words(s)) + TrailGap(s)
    decreases |s|
  {
    if s != [] {
      if IsSpace(s[0]) {
        SqueezeWords(SkipSpaces(s));
        GapFirst(s);
      } else {
        var n := Span(s, NonSpaces);
        SqueezeWord(s, n);
        SqueezeWords(s[n..]);
        WordFirst(s, n);
      }
    }
  }

  lemma GapFirst(s: string)
    requires s != [] && IsSpace(s[0])
    requires var t := SkipSpaces(s); Squeeze(t) == LeadGap(t) + Join(Words(t)) + TrailGap(t)
    ensures Squeeze(s) == LeadGap(s) + Join(Words(s)) + TrailGap(s)
  {
    var t := SkipSpaces(s);
    GapKeepsWords(s);
    SqueezeGap(s);
    Regroup(" ", [], Join(Words(t)), TrailGap(t));
  }

  lemma SqueezeGap(s: string)
    requires s != [] && IsSpace(s[0])
    ensures Squeeze(s) == " " + Squeeze(SkipSpaces(s)) && LeadGap(s) == " "
  {
  }

  lemma Regroup(a: string, b: string, c: string, d: string)
    ensures a + (b + c + d) == (a + b) + c + d
  {
  }

  /** Skipping the leading whitespace changes neither the words nor the gap after them. */
  lemma GapKeepsWords(s: string)
    requires s != [] && IsSpace(s[0])
    ensures var t := SkipSpaces(s);
      Words(s) == Words(t) && TrailGap(t) == TrailGap(s) && LeadGap(t) == []
  {
    var t := SkipSpaces(s);
    SkipSpacesTwice(s);
    if t != [] {
      SkipSpacesKeepsLast(s);
    }
  }

  lemma SkipSpacesKeepsLast(s: string)
    requires SkipSpaces(s) != []
    ensures var t := SkipSpaces(s); t[|t| - 1] == s[|s| - 1]
  {
  }

  lemma SkipSpacesTwice(s: string)
    ensures var t := SkipSpaces(s); SkipSpaces(t) == t && Words(s) == Words(t)
  {
  }

  lemma WordFirst(s: string, n: nat)
    requires s != [] && !IsSpace(s[0]) && n == Span(s, NonSpaces)
    requires Squeeze(s) == s[..n] + Squeeze(s[n..])
    requires var rest := s[n..]; Squeeze(rest) == LeadGap(rest) + Join(Words(rest)) + TrailGap(rest)
    ensures Squeeze(s) == LeadGap(s) + Join(Words(s)) + TrailGap(s)
  {
    if n == |s| {
      WordOnlyGlue(s, n);
    } else if Words(s[n..]) == [] {
      WordThenBlankGlue(s, n);
    } else {
      WordThenWordsGlue(s, n);
    }
  }

  lemma WordOnlyGlue(s: string, n: nat)
    requires s != [] && !IsSpace(s[0]) && n == Span(s, NonSpaces) && n == |s|
    requires Squeeze(s) == s[..n] + Squeeze(s[n..])
    ensures Squeeze(s) == LeadGap(s) + Join(Words(s)) + TrailGap(s)
  {
    WordOnly(s, n);
    assert Squeeze([]) == [];
  }

  lemma WordThenBlankGlue(s: string, n: nat)
    requires s != [] && !IsSpace(s[0]) && n == Span(s, NonSpaces) && n < |s| && Words(s[n..]) == []
    requires Squeeze(s) == s[..n] + Squeeze(s[n..])
    requires var rest := s[n..]; Squeeze(rest) == LeadGap(rest) + Join(Words(rest)) + TrailGap(rest)
    ensures Squeeze(s) == LeadGap(s) + Join(Words(s)) + TrailGap(s)
  {
    var w, rest := s[..n], s[n..];
    WordsOpenWithWord(s, n);
    WordThenBlank(s, n);
    SingleWord(s, n);
    BlankAlgebra(Squeeze(s), w, Squeeze(rest), LeadGap(rest), Join(Words(rest)), TrailGap(rest),
      LeadGap(s), Join(Words(s)), TrailGap(s));
  }

  lemma BlankAlgebra(sq: string, w: string, sqr: string, lr: string, jr: string, tr: string,
                     ls: string, js: string, ts: string)
    requires sq == w + sqr && sqr == lr + jr + tr
    requires lr == " " && jr == [] && tr == [] && ls == [] && js == w && ts == " "
    ensures sq == ls + js + ts
  {
  }

  lemma SingleWord(s: string, n: nat)
    requires s != [] && !IsSpace(s[0]) && n == Span(s, NonSpaces) && Words(s[n..]) == []
    ensures Join(Words(s)) == s[..n] && Join(Words(s[n..])) == []
  {
    WordsOpenWithWord(s, n);
    assert Words(s) == [s[..n]];
  }

  lemma WordThenWordsGlue(s: string, n: nat)
    requires s != [] && !IsSpace(s[0]) && n == Span(s, NonSpaces) && n < |s| && Words(s[n..]) != []
    requires Squeeze(s) == s[..n] + Squeeze(s[n..])
    requires var rest := s[n..]; Squeeze(rest) == LeadGap(rest) + Join(Words(rest)) + TrailGap(rest)
    ensures Squeeze(s) == LeadGap(s) + Join(Words(s)) + TrailGap(s)
  {
    var w, rest := s[..n], s[n..];
    WordsOpenWithWord(s, n);
    WordThenWords(s, n);
    JoinCons(w, Words(rest));
    WordsAlgebra(Squeeze(s), w, Squeeze(rest), LeadGap(rest), Join(Words(rest)), TrailGap(rest),
      LeadGap(s), Join(Words(s)), TrailGap(s));
  }

  lemma WordsAlgebra(sq: string, w: string, sqr: string, lr: string, jr: string, tr: string,
                     ls: string, js: string, ts: string)
    requires sq == w + sqr && sqr == lr + jr + tr
    requires lr == " " && ls == [] && js == w + " " + jr && ts == tr
    ensures sq == ls + js + ts
  {
  }

  lemma WordsOpenWithWord(s: string, n: nat)
    requires s != [] && !IsSpace(s[0]) && n == Span(s, NonSpaces)
    ensures Words(s) == [s[..n]] + Words(s[n..]) && LeadGap(s) == []
  {
    assert SkipSpaces(s) == s;
  }

  lemma WordOnly(s: string, n: nat)
    requires s != [] && !IsSpace(s[0]) && n == Span(s, NonSpaces) && n == |s|
    ensures s[..n] == s && s[n..] == [] && Words(s) == [s] && TrailGap(s) == []
  {
    WordsOpenWithWord(s, n);
    assert s[..n] == s;
  }

  lemma WordThenBlank(s: string, n: nat)
    requires s != [] && !IsSpace(s[0]) && n == Span(s, NonSpaces) && n < |s| && Words(s[n..]) == []
    ensures LeadGap(s[n..]) == " " && TrailGap(s[n..]) == [] && TrailGap(s) == " "
  {
    var rest := s[n..];
    WordsOpenWithWord(s, n);
    NoWordsBlank(rest);
    assert s[|s| - 1] == rest[|rest| - 1];
  }

  lemma WordThenWords(s: string, n: nat)
    requires s != [] && !IsSpace(s[0]) && n == Span(s, NonSpaces) && n < |s| && Words(s[n..]) != []
    ensures LeadGap(s[n..]) == " " && TrailGap(s) == TrailGap(s[n..])
  {
    var rest := s[n..];
    WordsOpenWithWord(s, n);
    assert s[|s| - 1] == rest[|rest| - 1];
  }

  /** Stripping the end spaces off words joined by single spaces leaves the join. */
  lemma StripGaps(j: string, lead: string, trail: string)
    requires lead == [] || lead == " "
    requires trail == [] || trail == " "
    requires j == [] ==> trail == []
    requires j != [] ==> !IsSpace(j[0]) && !IsSpace(j[|j| - 1])
    ensures DropTrailingSpaces(SkipSpaces(lead + j + trail)) == j
  {
    var x := lead + j + trail;
    if j == [] {
      assert x == lead;
    } else {
      assert x[|lead|..] == j + trail;
      assert LeadingSpaces(x) == |lead|;
      var y := j + trail;
      assert SkipSpaces(x) == y;
      assert y[..|j|] == j;
      assert TrailingSpaces(y) == |trail|;
    }
  }

  lemma CollapseIsJoin(s: string)
    ensures DropTrailingSpaces(SkipSpaces(Squeeze(s))) == Join(Words(s))
  {
    SqueezeWords(s);
    WordsAreRuns(s);
    JoinEnds(Words(s));
    StripGaps(Join(Words(s)), LeadGap(s), TrailGap(s));
  }

  // -------------------------------------------------- token and URL deletion

  datatype CharClass = Digits | WordChars | NonSpaces

  predicate InClass(c: char, k: CharClass) {
    match k
    case Digits => IsDigit(c)
    case WordChars => IsWordChar(c)
    case NonSpaces => !IsSpace(c)
  }

  /** Length of the longest prefix of `s` made of characters of class `k`. */
  function Span(s: string, k: CharClass): (n: nat)
    ensures n <= |s|
    ensures forall i :: 0 <= i < n ==> InClass(s[i], k)
    ensures n == |s| || !InClass(s[n], k)
  {
    if s != [] && InClass(s[0], k) then 1 + Span(s[1..], k) else 0
  }

  /**
   * From position `i`, a non-empty run of class `k` closed by `close`: the
   * position just past `close`, or 0 when there is none. Taking the longest
   * run without backtracking finds the regular expression's match, because
   * `close` is never in class `k`.
   */
  function RunThen(s: string, i: nat, k: CharClass, close: char): (j: nat)
    requires i <= |s|
    ensures j == 0 || i < j <= |s|
  {
    var n := Span(s[i..], k);
    if n > 0 && i + n < |s| && s[i + n] == close then i + n + 1 else 0
  }

  // The token shapes of main.py:259; each gives the length of its match at
  // the start of the text, 0 for none.

  /** `<@!?\d+>` */
  function UserMentionLen(s: string): (n: nat)
    ensures n <= |s|
  {
    if |s| >= 2 && s[0] == '<' && s[1] == '@' then
      RunThen(s, if |s| > 2 && s[2] == '!' then 3 else 2, Digits, '>')
    else 0
  }

  /** `<#\d+>` */
  function ChannelMentionLen(s: string): (n: nat)
    ensures n <= |s|
  {
    if |s| >= 2 && s[0] == '<' && s[1] == '#' then RunThen(s, 2, Digits, '>') else 0
  }

  /** `\w+:\d+>` from position `i`: the tail shared by both emoji shapes. */
  function EmojiTail(s: string, i: nat): (n: nat)
    requires i <= |s|
    ensures n <= |s|
  {
    var j := RunThen(s, i, WordChars, ':');
    if j == 0 then 0 else RunThen(s, j, Digits, '>')
  }

  /** `<:\w+:\d+>` */
  function CustomEmojiLen(s: string): (n: nat)
    ensures n <= |s|
  {
    if |s| >= 2 && s[0] == '<' && s[1] == ':' then EmojiTail(s, 2) else 0
  }

  /** `<a:\w+:\d+>` */
  function AnimatedEmojiLen(s: string): (n: nat)
    ensures n <= |s|
  {
    if |s| >= 3 && s[0] == '<' && s[1] == 'a' && s[2] == ':' then EmojiTail(s, 3) else 0
  }

  /** `<t:\d+:\w+>` */
  function TimestampLen(s: string): (n: nat)
    ensures n <= |s|
  {
    if |s| >= 3 && s[0] == '<' && s[1] == 't' && s[2] == ':' then
      var j := RunThen(s, 3, Digits, ':');
      if j == 0 then 0 else RunThen(s, j, WordChars, '>')
    else 0
  }

  const Fence: string := "```"

  /** The first index j >= i at which a fence starts, if any. */
  function FindFence(s: string, i: nat): (r: Option<nat>)
    requires i <= |s|
    ensures r.Some? ==> i <= r.value && r.value + 3 <= |s| && s[r.value..r.value + 3] == Fence
    ensures r.Some? ==> forall j :: i <= j < r.value ==> !OccursAt(s, Fence, j)
    ensures r.None? ==> forall j :: i <= j ==> !OccursAt(s, Fence, j)
    decreases |s| - i
  {
    if i + 3 > |s| then None
    else if s[i..i + 3] == Fence then Some(i)
    else FindFence(s, i + 1)
  }

  /**
   * The lazy, DOTALL code block "```.*?```": a fence at the start of `s` up to
   * and including the next fence after it; 0 when there is none.
   */
  function CodeBlockLen(s: string): (n: nat)
    ensures n <= |s|
    ensures n > 0 ==> Fence <= s && n >= 6 && s[n - 3..n] == Fence
    ensures n > 0 ==> forall j :: 3 <= j < n - 3 ==> !OccursAt(s, Fence, j)
    ensures n == 0 && Fence <= s ==> forall j :: 3 <= j ==> !OccursAt(s, Fence, j)
  {
    if Fence <= s then
      match FindFence(s, 3)
      case Some(j) => j + 3
      case None => 0
    else 0
  }

  /**
   * The pattern of main.py:259 at the start of `s`. Its alternatives begin
   * with distinct two-character openers (`<@`, `<#`, `<:`, `<a`, `<t` and
   * two backticks), so at most one of them can match at a position, and
   * the opener says which one to try.
   */
  function MarkupTokenLen(s: string): (n: nat)
    ensures n <= |s|
    ensures n > 0 ==> s != [] && (s[0] == '<' || s[0] == '`')
  {
    if |s| < 2 then 0
    else if s[0] == '`' then CodeBlockLen(s)
    else if s[0] != '<' then 0
    else if s[1] == '@' then UserMentionLen(s)
    else if s[1] == '#' then ChannelMentionLen(s)
    else if s[1] == ':' then CustomEmojiLen(s)
    else if s[1] == 'a' then AnimatedEmojiLen(s)
    else if s[1] == 't' then TimestampLen(s)
    else 0
  }

  /** `https?://\S+` */
  function HttpUrlLen(s: string): (n: nat)
    ensures n <= |s|
  {
    if |s| >= 4 && s[0] == 'h' && s[1] == 't' && s[2] == 't' && s[3] == 'p' then
      var i := if |s| > 4 && s[4] == 's' then 5 else 4;
      if |s| >= i + 3 && s[i] == ':' && s[i + 1] == '/' && s[i + 2] == '/' then
        var n := Span(s[i + 3..], NonSpaces);
        if n > 0 then i + 3 + n else 0
      else 0
    else 0
  }

  /** `www\.\S+` */
  function WwwUrlLen(s: string): (n: nat)
    ensures n <= |s|
  {
    if |s| >= 4 && s[0] == 'w' && s[1] == 'w' && s[2] == 'w' && s[3] == '.' then
      var n := Span(s[4..], NonSpaces);
      if n > 0 then 4 + n else 0
    else 0
  }

  /** The pattern of main.py:262. */
  function UrlLen(s: string): (n: nat)
    ensures n <= |s|
    ensures n > 0 ==> s != [] && (s[0] == 'h' || s[0] == 'w')
  {
    if s == [] then 0
    else if s[0] == 'h' then HttpUrlLen(s)
    else if s[0] == 'w' then WwwUrlLen(s)
    else 0
  }

  /** The two deletion passes of main.py:259 and main.py:262. */
  datatype Pass = MarkupPass | UrlPass

  /** Length of the token the pass deletes at the start of `s`; 0 for none. */
  function TokenLen(p: Pass, s: string): (n: nat)
    ensures n <= |s|
  {
    match p
    case MarkupPass => MarkupTokenLen(s)
    case UrlPass => UrlLen(s)
  }

  /**
   * `re.sub(pattern, '', s)`: scan left to right; where a token starts,
   * delete it and resume after it, otherwise keep the character.
   */
  function Scrub(p: Pass, s: string): (r: string)
    ensures |r| <= |s|
    decreases |s|
  {
    if s == [] then []
    else
      var n := TokenLen(p, s);
      if n > 0 then Scrub(p, s[n..]) else [s[0]] + Scrub(p, s[1..])
  }

  /** The characters at which a token of the pass can start. */
  predicate Opens(p: Pass, c: char) {
    match p
    case MarkupPass => c == '<' || c == '`'
    case UrlPass => c == 'h' || c == 'w'
  }

  lemma TokenStartsWithOpener(p: Pass, s: string)
    requires TokenLen(p, s) > 0
    ensures s != [] && Opens(p, s[0])
  {
  }

  /** A text where no token starts at any position passes through unchanged. */
  lemma {:induction false} ScrubIdentity(p: Pass, s: string)
    requires forall i :: 0 <= i < |s| ==> NoMatch(p, s[i..])
    ensures Scrub(p, s) == s
    decreases |s|
  {
    if s != [] {
      assert s[0..] == s;
      NoTokenNoMatch(p, s);
      forall i | 0 <= i < |s| - 1 ensures NoMatch(p, s[1..][i..]) {
        assert s[1..][i..] == s[i + 1..];
      }
      ScrubIdentity(p, s[1..]);
    }
  }

  /** A text with no character that can open a token passes through unchanged. */
  lemma ScrubKeepsOpenerFree(p: Pass, s: string)
    requires forall i :: 0 <= i < |s| ==> !Opens(p, s[i])
    ensures Scrub(p, s) == s
  {
    forall i | 0 <= i < |s| ensures NoMatch(p, s[i..]) {
      OpenerFreeNoMatch(p, s[i..]);
    }
    ScrubIdentity(p, s);
  }

  lemma OpenerFreeNoMatch(p: Pass, t: string)
    requires t != [] && !Opens(p, t[0])
    ensures NoMatch(p, t)
  {
    if TokenLen(p, t) > 0 {
      TokenStartsWithOpener(p, t);
    }
    NoTokenNoMatch(p, t);
  }

  // ------------------------------------------- the patterns, as text shapes

  /** Every character of `t` from `lo` up to `hi` is of class `k`. */
  predicate AllInRange(t: string, lo: int, hi: int, k: CharClass) {
    forall i :: lo <= i < hi && 0 <= i < |t| ==> InClass(t[i], k)
  }

  /** `t[lo..hi]` is a non-empty run of class `k` and `t[hi]` is `close`. */
  predicate RunUntil(t: string, lo: int, hi: int, k: CharClass, close: char) {
    0 <= lo < hi < |t| && t[hi] == close && AllInRange(t, lo, hi, k)
  }

  /** From `lo`, a run of `k1` closed by `c1`, then a run of `k2` closed by `c2` at `hi`. */
  predicate TwoRuns(t: string, lo: int, hi: int, k1: CharClass, c1: char, k2: CharClass, c2: char) {
    exists c :: lo < c < hi && RunUntil(t, lo, c, k1, c1) && RunUntil(t, c + 1, hi, k2, c2)
  }

  /** The whole of `t` is `<@!?\d+>`. */
  predicate IsUserMention(t: string) {
    && |t| >= 2 && t[0] == '<' && t[1] == '@'
    && (RunUntil(t, 2, |t| - 1, Digits, '>')
        || (|t| > 2 && t[2] == '!' && RunUntil(t, 3, |t| - 1, Digits, '>')))
  }

  /** The whole of `t` is `<#\d+>`. */
  predicate IsChannelMention(t: string) {
    |t| >= 2 && t[0] == '<' && t[1] == '#' && RunUntil(t, 2, |t| - 1, Digits, '>')
  }

  /** The whole of `t` is `<:\w+:\d+>`. */
  predicate IsCustomEmoji(t: string) {
    && |t| >= 2 && t[0] == '<' && t[1] == ':'
    && TwoRuns(t, 2, |t| - 1, WordChars, ':', Digits, '>')
  }

  /** The whole of `t` is `<a:\w+:\d+>`. */
  predicate IsAnimatedEmoji(t: string) {
    && |t| >= 3 && t[0] == '<' && t[1] == 'a' && t[2] == ':'
    && TwoRuns(t, 3, |t| - 1, WordChars, ':', Digits, '>')
  }

  /** The whole of `t` is `<t:\d+:\w+>`. */
  predicate IsTimestamp(t: string) {
    && |t| >= 3 && t[0] == '<' && t[1] == 't' && t[2] == ':'
    && TwoRuns(t, 3, |t| - 1, Digits, ':', WordChars, '>')
  }

  /**
   * The whole of `t` is what the lazy "```.*?```" matches: a fence, then
   * anything, then the first fence that starts after the opening one.
   */
  predicate IsCodeBlock(t: string) {
    && |t| >= 6 && OccursAt(t, Fence, 0) && OccursAt(t, Fence, |t| - 3)
    && forall j :: 3 <= j < |t| - 3 ==> !OccursAt(t, Fence, j)
  }

  predicate IsMarkupToken(t: string) {
    || IsUserMention(t) || IsChannelMention(t) || IsCustomEmoji(t)
    || IsAnimatedEmoji(t) || IsTimestamp(t) || IsCodeBlock(t)
  }

  /** `head`, then at least one character, none of them whitespace. */
  predicate UrlWithHead(t: string, head: string) {
    |head| < |t| && head <= t && AllInRange(t, |head|, |t|, NonSpaces)
  }

  /** The whole of `t` is `https?://\S+` or `www\.\S+`. */
  predicate IsUrl(t: string) {
    UrlWithHead(t, "http://") || UrlWithHead(t, "https://") || UrlWithHead(t, "www.")
  }

  predicate IsToken(p: Pass, t: string) {
    match p
    case MarkupPass => IsMarkupToken(t)
    case UrlPass => IsUrl(t)
  }

  /**
   * The pattern of the pass matches the first `n` characters of `s`: the
   * prefix has the shape, and a URL's greedy `\S+` takes the whole run.
   */
  predicate MatchAt(p: Pass, s: string, n: int) {
    && 0 < n <= |s| && IsToken(p, s[..n])
    && (p == UrlPass ==> n == |s| || IsSpace(s[n]))
  }

  /** The pattern of the pass matches no prefix of `s`. */
  predicate NoMatch(p: Pass, s: string) {
    forall n :: 0 < n <= |s| ==> !MatchAt(p, s, n)
  }

  // ------------------------------------ the scanner finds what the patterns match

  /** The span of class `k` from `i`, read on `s` itself. */
  lemma SpanFrom(s: string, i: nat, k: CharClass)
    requires i <= |s|
    ensures var n := Span(s[i..], k);
      && AllInRange(s, i, i + n, k) && (i + n == |s| || !InClass(s[i + n], k))
  {
    var t := s[i..];
    var n := Span(t, k);
    forall m | i <= m < i + n ensures InClass(s[m], k) {
      assert s[m] == t[m - i];
    }
    if i + n < |s| {
      assert s[i + n] == t[n];
    }
  }

  /** A run of class `k` from `i` that stops at `d` is the span from `i`. */
  lemma SpanFromExact(s: string, i: nat, k: CharClass, d: nat)
    requires i <= d <= |s| && (d == |s| || !InClass(s[d], k)) && AllInRange(s, i, d, k)
    ensures Span(s[i..], k) == d - i
  {
    var t := s[i..];
    forall m | 0 <= m < d - i ensures InClass(t[m], k) {
      assert t[m] == s[m + i];
    }
    if d < |s| {
      assert t[d - i] == s[d];
    }
    SpanExact(t, k, d - i);
  }

  /** `RunThen` ends just past the `close` of a run exactly when the run is there. */
  lemma RunThenIff(s: string, i: nat, k: CharClass, close: char, j: int)
    requires i <= |s| && !InClass(close, k) && j > 0
    ensures RunThen(s, i, k, close) == j <==> RunUntil(s, i, j - 1, k, close)
  {
    SpanFrom(s, i, k);
    if RunUntil(s, i, j - 1, k, close) {
      SpanFromExact(s, i, k, j - 1);
    }
  }

  lemma RunUntilPrefix(s: string, n: int, lo: int, hi: int, k: CharClass, close: char)
    requires 0 <= n <= |s| && hi < n
    ensures RunUntil(s[..n], lo, hi, k, close) <==> RunUntil(s, lo, hi, k, close)
  {
    var t := s[..n];
    if 0 <= lo < hi {
      assert t[hi] == s[hi];
      assert AllInRange(t, lo, hi, k) <==> AllInRange(s, lo, hi, k) by {
        assert forall i :: lo <= i < hi ==> t[i] == s[i];
      }
    }
  }

  lemma TwoRunsIff(s: string, i: nat, k1: CharClass, c1: char, k2: CharClass, c2: char, n: int)
    requires i <= |s| && !InClass(c1, k1) && !InClass(c2, k2) && n > 0
    ensures (var j := RunThen(s, i, k1, c1); j > 0 && RunThen(s, j, k2, c2) == n)
      <==> TwoRuns(s, i, n - 1, k1, c1, k2, c2)
  {
    var j := RunThen(s, i, k1, c1);
    if j > 0 && RunThen(s, j, k2, c2) == n {
      ScannedTwoRuns(s, i, k1, c1, k2, c2, n);
    }
    if TwoRuns(s, i, n - 1, k1, c1, k2, c2) {
      var c :| i < c < n - 1 && RunUntil(s, i, c, k1, c1) && RunUntil(s, c + 1, n - 1, k2, c2);
      TwoRunsScanned(s, i, k1, c1, k2, c2, n, c);
    }
  }

  lemma ScannedTwoRuns(s: string, i: nat, k1: CharClass, c1: char, k2: CharClass, c2: char, n: int)
    requires i <= |s| && !InClass(c1, k1) && !InClass(c2, k2) && n > 0
    requires var j := RunThen(s, i, k1, c1); j > 0 && RunThen(s, j, k2, c2) == n
    ensures TwoRuns(s, i, n - 1, k1, c1, k2, c2)
  {
    var j := RunThen(s, i, k1, c1);
    RunThenIff(s, i, k1, c1, j);
    RunThenIff(s, j, k2, c2, n);
    assert RunUntil(s, i, j - 1, k1, c1) && RunUntil(s, j, n - 1, k2, c2);
  }

  lemma TwoRunsScanned(s: string, i: nat, k1: CharClass, c1: char, k2: CharClass, c2: char, n: int, c: int)
    requires i <= |s| && !InClass(c1, k1) && !InClass(c2, k2) && n > 0
    requires i < c < n - 1 && RunUntil(s, i, c, k1, c1) && RunUntil(s, c + 1, n - 1, k2, c2)
    ensures var j := RunThen(s, i, k1, c1); j > 0 && RunThen(s, j, k2, c2) == n
  {
    RunThenIff(s, i, k1, c1, c + 1);
    RunThenIff(s, c + 1, k2, c2, n);
  }

  lemma TwoRunsPrefix(s: string, n: int, lo: int, k1: CharClass, c1: char, k2: CharClass, c2: char)
    requires 0 <= n <= |s|
    ensures TwoRuns(s[..n], lo, n - 1, k1, c1, k2, c2) <==> TwoRuns(s, lo, n - 1, k1, c1, k2, c2)
  {
    if TwoRuns(s[..n], lo, n - 1, k1, c1, k2, c2) {
      var c :| lo < c < n - 1 && RunUntil(s[..n], lo, c, k1, c1) && RunUntil(s[..n], c + 1, n - 1, k2, c2);
      RunUntilPrefix(s, n, lo, c, k1, c1);
      RunUntilPrefix(s, n, c + 1, n - 1, k2, c2);
    }
    if TwoRuns(s, lo, n - 1, k1, c1, k2, c2) {
      var c :| lo < c < n - 1 && RunUntil(s, lo, c, k1, c1) && RunUntil(s, c + 1, n - 1, k2, c2);
      RunUntilPrefix(s, n, lo, c, k1, c1);
      RunUntilPrefix(s, n, c + 1, n - 1, k2, c2);
    }
  }

  lemma UserMentionMatches(s: string, n: int)
    requires 0 < n <= |s|
    ensures UserMentionLen(s) == n <==> IsUserMention(s[..n])
  {
    if |s| >= 2 && s[0] == '<' && s[1] == '@' {
      var i := if |s| > 2 && s[2] == '!' then 3 else 2;
      RunThenIff(s, i, Digits, '>', n);
      RunUntilPrefix(s, n, 2, n - 1, Digits, '>');
      RunUntilPrefix(s, n, 3, n - 1, Digits, '>');
      if n > 2 {
        assert s[..n][2] == s[2];
      }
    }
  }

  lemma ChannelMentionMatches(s: string, n: int)
    requires 0 < n <= |s|
    ensures ChannelMentionLen(s) == n <==> IsChannelMention(s[..n])
  {
    if |s| >= 2 && s[0] == '<' && s[1] == '#' {
      RunThenIff(s, 2, Digits, '>', n);
      RunUntilPrefix(s, n, 2, n - 1, Digits, '>');
    }
  }

  lemma CustomEmojiMatches(s: string, n: int)
    requires 0 < n <= |s|
    ensures CustomEmojiLen(s) == n <==> IsCustomEmoji(s[..n])
  {
    if |s| >= 2 && s[0] == '<' && s[1] == ':' {
      TwoRunsIff(s, 2, WordChars, ':', Digits, '>', n);
      TwoRunsPrefix(s, n, 2, WordChars, ':', Digits, '>');
    }
  }

  lemma AnimatedEmojiMatches(s: string, n: int)
    requires 0 < n <= |s|
    ensures AnimatedEmojiLen(s) == n <==> IsAnimatedEmoji(s[..n])
  {
    if |s| >= 3 && s[0] == '<' && s[1] == 'a' && s[2] == ':' {
      TwoRunsIff(s, 3, WordChars, ':', Digits, '>', n);
      TwoRunsPrefix(s, n, 3, WordChars, ':', Digits, '>');
    }
  }

  lemma TimestampMatches(s: string, n: int)
    requires 0 < n <= |s|
    ensures TimestampLen(s) == n <==> IsTimestamp(s[..n])
  {
    if |s| >= 3 && s[0] == '<' && s[1] == 't' && s[2] == ':' {
      TwoRunsIff(s, 3, Digits, ':', WordChars, '>', n);
      TwoRunsPrefix(s, n, 3, Digits, ':', WordChars, '>');
    }
  }

  lemma OccursInPrefix(s: string, n: int, j: int)
    requires 0 <= j && j + 3 <= n <= |s|
    ensures OccursAt(s[..n], Fence, j) <==> OccursAt(s, Fence, j)
  {
    assert s[..n][j..j + 3] == s[j..j + 3];
  }

  lemma CodeBlockMatches(s: string, n: int)
    requires 0 < n <= |s|
    ensures CodeBlockLen(s) == n <==> IsCodeBlock(s[..n])
  {
    var t := s[..n];
    OccursAtStart(s, Fence);
    if n >= 6 {
      OccursInPrefix(s, n, 0);
      OccursInPrefix(s, n, n - 3);
      forall j | 3 <= j < n - 3 ensures OccursAt(t, Fence, j) <==> OccursAt(s, Fence, j) {
        OccursInPrefix(s, n, j);
      }
      var m := CodeBlockLen(s);
      if IsCodeBlock(t) && 0 < m < n {
        assert OccursAt(s, Fence, m - 3);
      }
    }
  }

  lemma CodeBlockOpens(t: string)
    requires IsCodeBlock(t)
    ensures t[0] == '`'
  {
    assert t[0] == t[0..3][0];
  }

  lemma MarkupMatches(s: string, n: int)
    requires 0 < n <= |s|
    ensures MarkupTokenLen(s) == n <==> IsMarkupToken(s[..n])
  {
    var t := s[..n];
    if IsCodeBlock(t) {
      CodeBlockOpens(t);
    }
    if |s| >= 2 {
      assert t[0] == s[0];
      if n >= 2 {
        assert t[1] == s[1];
      }
      if s[0] == '`' {
        CodeBlockMatches(s, n);
      } else if s[0] == '<' {
        if s[1] == '@' {
          UserMentionMatches(s, n);
        } else if s[1] == '#' {
          ChannelMentionMatches(s, n);
        } else if s[1] == ':' {
          CustomEmojiMatches(s, n);
        } else if s[1] == 'a' {
          AnimatedEmojiMatches(s, n);
        } else if s[1] == 't' {
          TimestampMatches(s, n);
        }
      }
    }
  }

  /** `head <= s[..n]` is `head <= s` once the head fits in `n`. */
  lemma HeadInPrefix(s: string, n: int, head: string)
    requires |head| <= n <= |s|
    ensures head <= s[..n] <==> head <= s
  {
    assert s[..n][..|head|] == s[..|head|];
  }

  /** After a head of length `h`, the greedy `\S+` ends at `n` exactly when `n` ends the run. */
  lemma RunAfterHead(s: string, h: nat, n: int)
    requires h <= |s|
    ensures var m := Span(s[h..], NonSpaces);
      (m > 0 && h + m == n)
      <==> (h < n <= |s| && AllInRange(s, h, n, NonSpaces) && (n == |s| || IsSpace(s[n])))
  {
    SpanFrom(s, h, NonSpaces);
    if h < n <= |s| && AllInRange(s, h, n, NonSpaces) && (n == |s| || IsSpace(s[n])) {
      SpanFromExact(s, h, NonSpaces, n);
    }
  }

  lemma UrlWithHeadInPrefix(s: string, n: int, head: string)
    requires 0 < n <= |s|
    ensures UrlWithHead(s[..n], head)
      <==> |head| < n && head <= s && AllInRange(s, |head|, n, NonSpaces)
  {
    if |head| < n {
      HeadInPrefix(s, n, head);
      assert forall i :: 0 <= i < n ==> s[..n][i] == s[i];
    }
  }

  lemma HttpMatches(s: string, n: int)
    requires 0 < n <= |s| && |s| >= 4 && s[0] == 'h'
    ensures HttpUrlLen(s) == n <==> IsUrl(s[..n]) && (n == |s| || IsSpace(s[n]))
  {
    UrlWithHeadInPrefix(s, n, "http://");
    UrlWithHeadInPrefix(s, n, "https://");
    UrlWithHeadInPrefix(s, n, "www.");
    if s[1] == 't' && s[2] == 't' && s[3] == 'p' {
      var i := if |s| > 4 && s[4] == 's' then 5 else 4;
      if |s| >= i + 3 && s[i] == ':' && s[i + 1] == '/' && s[i + 2] == '/' {
        RunAfterHead(s, i + 3, n);
        assert s[..i + 3] == if i == 5 then "https://" else "http://";
      }
    }
  }

  lemma WwwMatches(s: string, n: int)
    requires 0 < n <= |s| && s[0] == 'w'
    ensures WwwUrlLen(s) == n <==> IsUrl(s[..n]) && (n == |s| || IsSpace(s[n]))
  {
    UrlWithHeadInPrefix(s, n, "http://");
    UrlWithHeadInPrefix(s, n, "https://");
    UrlWithHeadInPrefix(s, n, "www.");
    if |s| >= 4 && s[1] == 'w' && s[2] == 'w' && s[3] == '.' {
      RunAfterHead(s, 4, n);
      assert s[..4] == "www.";
    }
  }

  lemma UrlMatches(s: string, n: int)
    requires 0 < n <= |s|
    ensures UrlLen(s) == n <==> IsUrl(s[..n]) && (n == |s| || IsSpace(s[n]))
  {
    UrlWithHeadInPrefix(s, n, "http://");
    UrlWithHeadInPrefix(s, n, "https://");
    UrlWithHeadInPrefix(s, n, "www.");
    if s[0] == 'h' && |s| >= 4 {
      HttpMatches(s, n);
    } else if s[0] == 'w' {
      WwwMatches(s, n);
    }
  }

  /**
   * The scanner's length is a match of the pass's pattern, and every match
   * is the scanner's length: at each position the pattern matches at most
   * one prefix, and `TokenLen` finds it.
   */
  lemma TokenLenMatches(p: Pass, s: string, n: int)
    ensures TokenLen(p, s) > 0 ==> MatchAt(p, s, TokenLen(p, s))
    ensures MatchAt(p, s, n) ==> TokenLen(p, s) == n
  {
    var m := TokenLen(p, s);
    match p
    case MarkupPass =>
      if m > 0 { MarkupMatches(s, m); }
      if 0 < n <= |s| { MarkupMatches(s, n); }
    case UrlPass =>
      if m > 0 { UrlMatches(s, m); }
      if 0 < n <= |s| { UrlMatches(s, n); }
  }

  /** The scanner finds no token exactly where the pattern matches nothing. */
  lemma NoTokenNoMatch(p: Pass, s: string)
    ensures TokenLen(p, s) == 0 <==> NoMatch(p, s)
  {
    TokenLenMatches(p, s, 0);
    forall n ensures TokenLen(p, s) == 0 ==> !MatchAt(p, s, n) {
      TokenLenMatches(p, s, n);
    }
  }

  /**
   * `re.sub` with an empty replacement: where the pattern matches a prefix,
   * that prefix is dropped and scanning resumes after it; where it matches
   * nothing, the first character is kept.
   */
  lemma ScrubDropsMatches(p: Pass, s: string, n: int)
    ensures MatchAt(p, s, n) ==> Scrub(p, s) == Scrub(p, s[n..])
    ensures s != [] && NoMatch(p, s) ==> Scrub(p, s) == [s[0]] + Scrub(p, s[1..])
  {
    TokenLenMatches(p, s, n);
    NoTokenNoMatch(p, s);
  }

  // ------------------------------------------------------ the whole cleaning

  /**
   * `clean_discord_message` (main.py:253-266): the words left after both
   * deletion passes, one space between two.
   */
  function Clean(raw: string): (r: string)
    ensures r == Join(Words(Scrub(UrlPass, Scrub(MarkupPass, raw))))
  {
    CollapseWhitespace(Scrub(UrlPass, Scrub(MarkupPass, raw)))
  }

  /** A text in which neither pattern matches at any position is only re-spaced. */
  lemma CleanPlainText(raw: string)
    requires forall i :: 0 <= i < |raw| ==> NoMatch(MarkupPass, raw[i..]) && NoMatch(UrlPass, raw[i..])
    ensures Clean(raw) == CollapseWhitespace(raw)
  {
    ScrubIdentity(MarkupPass, raw);
    ScrubIdentity(UrlPass, raw);
  }

  /** The shape `Clean` guarantees, whatever the input. */
  lemma CleanShape(raw: string)
    ensures var r := Clean(raw);
      && (r == [] || (!IsSpace(r[0]) && !IsSpace(r[|r| - 1])))
      && OnlyPlainSpaces(r) && NoDoubleSpace(r)
      && NonSpace(r) == NonSpace(Scrub(UrlPass, Scrub(MarkupPass, raw)))
  {
  }

  // ------------------------------------- one pass of deletions is not enough

  /** A run of class `k` that stops at `d`, at the end or before a character outside `k`, is the span. */
  lemma SpanExact(s: string, k: CharClass, d: nat)
    requires d <= |s| && (d == |s| || !InClass(s[d], k))
    requires forall i :: 0 <= i < d ==> InClass(s[i], k)
    ensures Span(s, k) == d
  {
    var n := Span(s, k);
    if n < d {
      assert false;
    } else if n > d {
      assert false;
    }
  }

  /** `<@`, then `d` digits, then `>`: a user mention of `d + 3` characters. */
  lemma MentionIsToken(s: string, d: nat)
    requires 1 <= d && d + 3 <= |s| && s[0] == '<' && s[1] == '@' && s[d + 2] == '>'
    requires forall i :: 2 <= i < d + 2 ==> IsDigit(s[i])
    ensures TokenLen(MarkupPass, s) == d + 3
  {
    var s2 := s[2..];
    forall i | 0 <= i < d ensures InClass(s2[i], Digits) {
      assert s2[i] == s[i + 2];
    }
    SpanExact(s2, Digits, d);
  }

  /** `<@<` starts no token: after `<@` a digit or `!` must follow. */
  lemma BareAtIsNoToken(s: string)
    requires 3 <= |s| && s[0] == '<' && s[1] == '@' && s[2] == '<'
    ensures TokenLen(MarkupPass, s) == 0
  {
    assert Span(s[2..], Digits) == 0;
  }

  lemma ScrubDeletes(p: Pass, s: string)
    requires TokenLen(p, s) > 0
    ensures Scrub(p, s) == Scrub(p, s[TokenLen(p, s)..])
  {
  }

  /** A character that opens no token is kept. */
  lemma NonOpenerKept(p: Pass, s: string)
    requires s != [] && !Opens(p, s[0])
    ensures Scrub(p, s) == [s[0]] + Scrub(p, s[1..])
  {
    if TokenLen(p, s) > 0 {
      TokenStartsWithOpener(p, s);
    }
  }

  /** A mention followed by a text without openers leaves that text. */
  lemma MentionThenPlain(s: string, d: nat)
    requires 1 <= d && d + 3 <= |s| && s[0] == '<' && s[1] == '@' && s[d + 2] == '>'
    requires forall i :: 2 <= i < d + 2 ==> IsDigit(s[i])
    requires forall i :: d + 3 <= i < |s| ==> !Opens(MarkupPass, s[i])
    ensures Scrub(MarkupPass, s) == s[d + 3..]
  {
    MentionIsToken(s, d);
    TokenThenPlain(MarkupPass, s, d + 3);
  }

  /** A token followed by a text without openers: the pass keeps the text. */
  lemma TokenThenPlain(p: Pass, s: string, n: nat)
    requires n <= |s| && TokenLen(p, s) == n > 0
    requires forall i :: n <= i < |s| ==> !Opens(p, s[i])
    ensures Scrub(p, s) == s[n..]
  {
    ScrubDeletes(p, s);
    PlainSuffix(p, s, n);
  }

  /** A suffix without openers is left as it is. */
  lemma PlainSuffix(p: Pass, s: string, k: nat)
    requires k <= |s|
    requires forall i :: k <= i < |s| ==> !Opens(p, s[i])
    ensures Scrub(p, s[k..]) == s[k..]
  {
    var rest := s[k..];
    forall i | 0 <= i < |rest| ensures !Opens(p, rest[i]) {
      assert rest[i] == s[i + k];
    }
    ScrubKeepsOpenerFree(p, rest);
  }

  predicate AllDigits(ds: string) {
    forall i :: 0 <= i < |ds| ==> IsDigit(ds[i])
  }

  /** The user mention of the id `ds`. */
  function Mention(ds: string): string {
    "<@" + ds + ">"
  }

  lemma MentionLayout(ds: string, r: string)
    requires ds != [] && AllDigits(ds)
    requires forall i :: 0 <= i < |r| ==> !Opens(MarkupPass, r[i])
    ensures var s := Mention(ds) + r; var d := |ds|;
      && d + 3 <= |s| && s[0] == '<' && s[1] == '@' && s[d + 2] == '>'
      && (forall i :: 2 <= i < d + 2 ==> IsDigit(s[i]))
      && (forall i :: d + 3 <= i < |s| ==> !Opens(MarkupPass, s[i]))
      && s[d + 3..] == r
  {
    var m := Mention(ds);
    var s := m + r;
    var d := |ds|;
    assert m == "<@" + ds + ['>'];
    assert m[0] == '<' && m[1] == '@' && m[d + 2] == '>';
    assert s[0] == m[0] && s[1] == m[1] && s[d + 2] == m[d + 2];
    forall i | 2 <= i < d + 2 ensures IsDigit(s[i]) {
      assert s[i] == ds[i - 2];
    }
    forall i | d + 3 <= i < |s| ensures !Opens(MarkupPass, s[i]) {
      assert s[i] == r[i - d - 3];
    }
    assert s[d + 3..] == r;
  }

  /** A mention followed by a text without openers: the pass keeps the text. */
  lemma MentionDeletedBeforePlain(ds: string, r: string)
    requires ds != [] && AllDigits(ds)
    requires forall i :: 0 <= i < |r| ==> !Opens(MarkupPass, r[i])
    ensures Scrub(MarkupPass, Mention(ds) + r) == r
  {
    MentionLayout(ds, r);
    MentionThenPlain(Mention(ds) + r, |ds|);
  }

  lemma NestedLayout(ds: string, r: string)
    ensures var s := "<@" + Mention(ds) + r;
      && |s| >= 3 && s[0] == '<' && s[1] == '@' && s[2] == '<'
      && s[2..] == Mention(ds) + r
      && [s[0], s[1]] + r == "<@" + r
  {
    var s := "<@" + Mention(ds) + r;
    assert s[2..] == Mention(ds) + r;
    assert s[2] == Mention(ds)[0];
  }

  /** Two characters that open no token, then a text the pass turns into `r`. */
  lemma KeepTwoThen(s: string, r: string)
    requires |s| >= 2 && TokenLen(MarkupPass, s) == 0 && !Opens(MarkupPass, s[1])
    requires Scrub(MarkupPass, s[2..]) == r
    ensures Scrub(MarkupPass, s) == [s[0], s[1]] + r
  {
    var t := s[1..];
    assert t[0] == s[1] && t[1..] == s[2..];
    KeepOneThen(t, r);
    KeepOneThen(s, [s[1]] + r);
  }

  /** A character that starts no token, then a text the pass turns into `r`. */
  lemma KeepOneThen(s: string, r: string)
    requires s != [] && TokenLen(MarkupPass, s) == 0 && Scrub(MarkupPass, s[1..]) == r
    ensures Scrub(MarkupPass, s) == [s[0]] + r
  {
  }

  /**
   * `<@` before a mention opens no token, so the pass keeps it, and the
   * mention's deletion joins it to what follows.
   */
  lemma NestedMentionLeavesMention(ds: string, r: string)
    requires ds != [] && AllDigits(ds)
    requires forall i :: 0 <= i < |r| ==> !Opens(MarkupPass, r[i])
    ensures Scrub(MarkupPass, "<@" + Mention(ds) + r) == "<@" + r
  {
    var s := "<@" + Mention(ds) + r;
    NestedLayout(ds, r);
    BareAtIsNoToken(s);
    MentionDeletedBeforePlain(ds, r);
    KeepTwoThen(s, r);
  }

  /**
   * Deleting tokens in one left-to-right pass can join the pieces around a
   * deleted token into a new one, so cleaning twice differs from cleaning
   * once: `<@<@1>1>` cleans to `<@1>`, which cleans to "".
   */
  lemma CleanIsNotIdempotent(ds: string)
    requires ds != [] && AllDigits(ds)
    ensures Clean("<@" + Mention(ds) + ds + ">") == Mention(ds)
    ensures Clean(Mention(ds)) == []
    ensures Clean(Clean("<@" + Mention(ds) + ds + ">")) != Clean("<@" + Mention(ds) + ds + ">")
  {
    CleanNestedMention(ds);
    CleanMention(ds);
  }

  lemma CleanNestedMention(ds: string)
    requires ds != [] && AllDigits(ds)
    ensures Clean("<@" + Mention(ds) + ds + ">") == Mention(ds)
  {
    var r := ds + ">";
    NestedLayoutPlain(ds);
    NestedMentionLeavesMention(ds, r);
    var m := Mention(ds);
    ScrubKeepsOpenerFree(UrlPass, m);
    NoSpaceCollapsesToItself(m);
  }

  lemma NestedLayoutPlain(ds: string)
    requires AllDigits(ds)
    ensures forall i :: 0 <= i < |ds + ">"| ==> !Opens(MarkupPass, (ds + ">")[i])
    ensures "<@" + (ds + ">") == Mention(ds)
    ensures "<@" + Mention(ds) + (ds + ">") == "<@" + Mention(ds) + ds + ">"
    ensures forall i :: 0 <= i < |Mention(ds)| ==> !Opens(UrlPass, Mention(ds)[i]) && !IsSpace(Mention(ds)[i])
  {
    var r := ds + ">";
    forall i | 0 <= i < |r| ensures !Opens(MarkupPass, r[i]) {
      if i < |ds| { assert r[i] == ds[i]; }
    }
    var m := Mention(ds);
    forall i | 0 <= i < |m| ensures !Opens(UrlPass, m[i]) && !IsSpace(m[i]) {
      if 2 <= i < |m| - 1 { assert m[i] == ds[i - 2]; }
    }
  }

  lemma CleanMention(ds: string)
    requires ds != [] && AllDigits(ds)
    ensures Clean(Mention(ds)) == []
  {
    MentionDeletedBeforePlain(ds, []);
    assert Mention(ds) + [] == Mention(ds);
    assert Scrub(UrlPass, []) == [];
    assert CollapseWhitespace([]) == [];
  }

  /** A text without whitespace is its own collapse. */
  lemma NoSpaceCollapsesToItself(t: string)
    requires forall i :: 0 <= i < |t| ==> !IsSpace(t[i])
    ensures CollapseWhitespace(t) == t
  {
    SqueezeNoSpace(t);
  }

  lemma {:induction false} SqueezeNoSpace(t: string)
    requires forall i :: 0 <= i < |t| ==> !IsSpace(t[i])
    ensures Squeeze(t) == t
    decreases |t|
  {
    if t != [] {
      assert forall i :: 0 <= i < |t| - 1 ==> t[1..][i] == t[i + 1];
      SqueezeNoSpace(t[1..]);
    }
  }

  // ---------------------------------------------------- the RESET keyword

  function UpperChar(c: char): char {
    if 'a' <= c <= 'z' then (c as int - 32) as char else c
  }

  /** ASCII `str.upper()`. */
  function Upper(s: string): (r: string)
    ensures |r| == |s|
    ensures forall i :: 0 <= i < |r| ==> !('a' <= r[i] <= 'z')
    ensures forall i :: 0 <= i < |s| && !('a' <= s[i] <= 'z') ==> r[i] == s[i]
    ensures forall i :: 0 <= i < |s| && 'a' <= s[i] <= 'z' ==> r[i] as int == s[i] as int - 32
  {
    seq(|s|, i requires 0 <= i < |s| => UpperChar(s[i]))
  }

  /** The same ASCII letter in either case, or the same character. */
  predicate SameIgnoringCase(c: char, d: char) {
    || c == d
    || ('a' <= c <= 'z' && d as int == c as int - 32)
    || ('A' <= c <= 'Z' && d as int == c as int + 32)
  }

  predicate EqualsIgnoringCase(a: string, b: string) {
    |a| == |b| && forall i :: 0 <= i < |a| ==> SameIgnoringCase(a[i], b[i])
  }

  /** "reset", in any mix of cases, starts at index `i` of `text`. */
  predicate ResetAt(text: string, i: int) {
    0 <= i <= |text| - 5 && EqualsIgnoringCase(text[i..i + 5], "RESET")
  }

  /** `pat` occurs in `s` starting at index `i`. */
  predicate OccursAt(s: string, pat: string, i: int) {
    0 <= i <= |s| - |pat| && s[i..i + |pat|] == pat
  }

  /** Python's `pat in s`. */
  predicate Contains(s: string, pat: string)
    decreases |s|
  {
    pat <= s || (s != [] && Contains(s[1..], pat))
  }

  lemma {:induction false} ContainsIffOccurs(s: string, pat: string)
    ensures Contains(s, pat) <==> exists i :: OccursAt(s, pat, i)
    decreases |s|
  {
    OccursAtStart(s, pat);
    if s == [] {
      forall i | OccursAt(s, pat, i) ensures i == 0 {
      }
    } else {
      ContainsIffOccurs(s[1..], pat);
      if exists i :: OccursAt(s[1..], pat, i) {
        var i :| OccursAt(s[1..], pat, i);
        OccursShift(s, pat, i);
      }
      if exists i :: OccursAt(s, pat, i) && i != 0 {
        var i :| OccursAt(s, pat, i) && i != 0;
        OccursShift(s, pat, i - 1);
      }
    }
  }

  lemma OccursAtStart(s: string, pat: string)
    ensures OccursAt(s, pat, 0) <==> pat <= s
  {
    if |pat| <= |s| {
      assert s[0..|pat|] == s[..|pat|];
    }
  }

  lemma OccursShift(s: string, pat: string, i: int)
    requires s != [] && i >= 0
    ensures OccursAt(s[1..], pat, i) <==> OccursAt(s, pat, i + 1)
  {
    if 0 <= i <= |s| - 1 - |pat| {
      assert s[1..][i..i + |pat|] == s[i + 1..i + 1 + |pat|];
    }
  }

  /**
   * `"RESET" in cleaned_text.upper()` (main.py:136): "reset" in any mix of
   * cases anywhere in the text, also inside a longer word ("presets").
   */
  function HasResetKeyword(text: string): (b: bool)
    ensures b <==> exists i :: ResetAt(text, i)
  {
    UpperContainsIff(text);
    Contains(Upper(text), "RESET")
  }

  lemma UpperContainsIff(text: string)
    ensures Contains(Upper(text), "RESET") <==> exists i :: ResetAt(text, i)
  {
    var u := Upper(text);
    ContainsIffOccurs(u, "RESET");
    forall i ensures OccursAt(u, "RESET", i) <==> ResetAt(text, i) {
      if 0 <= i <= |text| - 5 {
        UpperWindow(text, i);
      }
    }
  }

  /** "reset" is found in any case and inside a word; "rest" is too short to hold it. */
  lemma ResetKeywordExamples()
    ensures HasResetKeyword("reset now")
    ensures HasResetKeyword("any presets?")
    ensures !HasResetKeyword("rest")
  {
    assert ResetAt("reset now", 0);
    assert ResetAt("any presets?", 5);
  }

  lemma UpperWindow(text: string, i: int)
    requires 0 <= i <= |text| - 5
    ensures Upper(text)[i..i + 5] == "RESET" <==> EqualsIgnoringCase(text[i..i + 5], "RESET")
  {
    var u, w := Upper(text)[i..i + 5], text[i..i + 5];
    forall k | 0 <= k < 5 ensures u[k] == "RESET"[k] <==> SameIgnoringCase(w[k], "RESET"[k]) {
      UpperCharMatches(w[k], "RESET"[k]);
    }
    if EqualsIgnoringCase(w, "RESET") {
      assert forall k :: 0 <= k < 5 ==> u[k] == "RESET"[k];
    }
  }

  /** Upper-casing gives the capital letter `d` exactly from `d` and its small form. */
  lemma UpperCharMatches(c: char, d: char)
    requires 'A' <= d <= 'Z'
    ensures UpperChar(c) == d <==> SameIgnoringCase(c, d)
  {
  }
}
