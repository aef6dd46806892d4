/**
 * The quote-aware tokenizer of the shell (parseline_no_subst).
 *
 * The line is copied into a buffer whose final newline becomes a space
 * (or which gets a space appended). A position `p` walks the buffer: runs
 * of spaces are skipped, a token that STARTS with a single quote runs to
 * the next single quote (both quotes dropped), and any other token runs
 * to the next space. A quote anywhere else is an ordinary character. An
 * opening quote with no closing quote discards the whole line.
 * `ScanFrom` is the reference definition; `ParseLine` is the loop of the source,
 * proved to compute it.
 */
module Tokenizer {
  import opened Types

  /** The first position at or after `i` holding `c`, or |b| when there is
      none (strchr on the rest of the buffer). */
  function FindFrom(b: string, i: nat, c: char): (r: nat)
    requires i <= |b|
    ensures i <= r <= |b|
    ensures r < |b| ==> b[r] == c
    decreases |b| - i
  {
    if i == |b| || b[i] == c then i else FindFrom(b, i + 1, c)
  }

  /** No `c` lies between `i` and the position found. */
  lemma {:induction false} FindFromSkips(b: string, i: nat, c: char)
    requires i <= |b|
    ensures forall j :: i <= j < FindFrom(b, i, c) ==> b[j] != c
    decreases |b| - i
  {
    if i < |b| && b[i] != c {
      FindFromSkips(b, i + 1, c);
    }
  }

  /** The working copy of the line: a final newline becomes a space,
      otherwise a space is appended. */
  function Buffer(line: string): (b: string)
    ensures |b| > 0 && b[|b| - 1] == ' '
    ensures |b| == if |line| > 0 && line[|line| - 1] == '\n' then |line| else |line| + 1
  {
    if |line| > 0 && line[|line| - 1] == '\n' then line[..|line| - 1] + " " else line + " "
  }

  function Prepend(prefix: seq<string>, r: Option<seq<string>>): Option<seq<string>>
  {
    match r
    case None => None
    case Some(ts) => Some(prefix + ts)
  }

  /** The tokens of the buffer from position `p` on, or None when a quoted
      token is not closed. */
  function ScanFrom(b: string, p: nat): (r: Option<seq<string>>)
    requires p <= |b|
    ensures r.Some? ==> |r.value| <= |b| - p
    decreases |b| - p
  {
    if p == |b| then Some([])
    else if b[p] == ' ' then ScanFrom(b, p + 1)
    else if b[p] == '\'' then
      var q := FindFrom(b, p + 1, '\'');
      if q == |b| then None else Prepend([b[p + 1..q]], ScanFrom(b, q + 1))
    else
      var q := FindFrom(b, p, ' ');
      if q == |b| then Some([]) else Prepend([b[p..q]], ScanFrom(b, q + 1))
  }

  /** The tokens of one input line. */
  function Tokenize(line: string): (r: Option<seq<string>>)
    ensures r.Some? ==> |r.value| <= |line| + 1
  {
    ScanFrom(Buffer(line), 0)
  }

  /** How many tokens the loop stores in the argument vector from `p` on:
      every complete token, including those stored before an unclosed
      quote discards the line. */
  function ScanCount(b: string, p: nat): (n: nat)
    requires p <= |b|
    ensures n <= |b| - p
    decreases |b| - p
  {
    if p == |b| then 0
    else if b[p] == ' ' then ScanCount(b, p + 1)
    else if b[p] == '\'' then
      var q := FindFrom(b, p + 1, '\'');
      if q == |b| then 0 else 1 + ScanCount(b, q + 1)
    else
      var q := FindFrom(b, p, ' ');
      if q == |b| then 0 else 1 + ScanCount(b, q + 1)
  }

  /** On success the stored tokens are exactly the tokens returned. */
  lemma {:induction false} ScanCountTokens(b: string, p: nat)
    requires p <= |b|
    ensures ScanFrom(b, p).Some? ==> |ScanFrom(b, p).value| == ScanCount(b, p)
    decreases |b| - p
  {
    if p < |b| {
      if b[p] == ' ' {
        ScanCountTokens(b, p + 1);
      } else {
        var q := FindFrom(b, if b[p] == '\'' then p + 1 else p, if b[p] == '\'' then '\'' else ' ');
        if q < |b| {
          ScanCountTokens(b, q + 1);
        }
      }
    }
  }

  /** The writes parseline_no_subst makes stay inside an argument vector of
      MAX_ARGS entries: on success the tokens and the closing NULL; on an
      unclosed quote the tokens stored before it. */
  predicate FitsArgv(line: string)
  {
    match Tokenize(line)
    case Some(ts) => |ts| < MAX_ARGS
    case None => ScanCount(Buffer(line), 0) <= MAX_ARGS
  }

  /** parseline_no_subst: the line is copied into the buffer, which is then
      scanned. */
  method ParseLine(line: string) returns (r: Option<seq<string>>)
    ensures r == Tokenize(line)
  {
    var buf := Buffer(line);
    r := ScanBuffer(buf);
  }

  /** The loop of parseline_no_subst: `p` walks the buffer, each token is
      cut at the next quote (quoted) or the next space (plain), and the
      spaces after it are skipped. */
  method ScanBuffer(buf: string) returns (r: Option<seq<string>>)
    ensures r == ScanFrom(buf, 0)
  {
    var argv: seq<string> := [];
    PrependNil(ScanFrom(buf, 0));
    var p := SkipSpaces(buf, 0);
    while p < |buf|
      invariant p <= |buf|
      invariant p < |buf| ==> buf[p] != ' '
      invariant ScanFrom(buf, 0) == Prepend(argv, ScanFrom(buf, p))
      decreases |buf| - p
    {
      var tokenStart, tokenEnd;
      if buf[p] == '\'' {
        tokenStart := p + 1;
        tokenEnd := FindFrom(buf, p + 1, '\'');
        if tokenEnd == |buf| {
          return None;
        }
      } else {
        tokenStart := p;
        tokenEnd := FindFrom(buf, p, ' ');
        if tokenEnd == |buf| {
          assert argv + [] == argv;
          break;
        }
      }
      ScanAdvance(buf, p, argv, tokenStart, tokenEnd);
      argv := argv + [buf[tokenStart..tokenEnd]];
      p := SkipSpaces(buf, tokenEnd + 1);
    }
    assert p == |buf| ==> argv + [] == argv;
    return Some(argv);
  }

  /** One complete token read at `p` joins the words already read. */
  lemma ScanAdvance(buf: string, p: nat, argv: seq<string>, tokenStart: nat, tokenEnd: nat)
    requires p < |buf| && buf[p] != ' '
    requires tokenStart == (if buf[p] == '\'' then p + 1 else p)
    requires tokenEnd == FindFrom(buf, tokenStart, if buf[p] == '\'' then '\'' else ' ') && tokenEnd < |buf|
    requires ScanFrom(buf, 0) == Prepend(argv, ScanFrom(buf, p))
    ensures ScanFrom(buf, 0) == Prepend(argv + [buf[tokenStart..tokenEnd]], ScanFrom(buf, tokenEnd + 1))
  {
    assert ScanFrom(buf, p) == Prepend([buf[tokenStart..tokenEnd]], ScanFrom(buf, tokenEnd + 1));
    PrependAssoc(argv, [buf[tokenStart..tokenEnd]], ScanFrom(buf, tokenEnd + 1));
  }

  /** Moves past a run of spaces; the tokens ahead are unchanged. */
  method SkipSpaces(buf: string, from: nat) returns (p: nat)
    requires from <= |buf|
    ensures from <= p <= |buf|
    ensures p < |buf| ==> buf[p] != ' '
    ensures forall j :: from <= j < p ==> buf[j] == ' '
    ensures ScanFrom(buf, p) == ScanFrom(buf, from)
  {
    p := from;
    while p < |buf| && buf[p] == ' '
      invariant from <= p <= |buf|
      invariant forall j :: from <= j < p ==> buf[j] == ' '
      invariant ScanFrom(buf, p) == ScanFrom(buf, from)
    {
      SkipSpace(buf, p);
      p := p + 1;
    }
  }

  lemma SkipSpace(b: string, p: nat)
    requires p < |b| && b[p] == ' '
    ensures ScanFrom(b, p) == ScanFrom(b, p + 1)
  {
  }

  lemma PrependNil(r: Option<seq<string>>)
    ensures Prepend([], r) == r
  {
    match r
    case None =>
    case Some(ts) => assert [] + ts == ts;
  }

  lemma PrependAssoc(a: seq<string>, b: seq<string>, r: Option<seq<string>>)
    ensures Prepend(a, Prepend(b, r)) == Prepend(a + b, r)
  {
    match r
    case None =>
    case Some(ts) => assert a + (b + ts) == (a + b) + ts;
  }

  // ---------------------------------------------------------------------
  // What a token can look like

  /** A token either holds no quote (it was quoted, or is plain text
      without quotes), or it is plain: non-empty, without spaces, not
      starting with a quote. */
  predicate WellFormedToken(t: string)
  {
    '\'' !in t || (t != [] && t[0] != '\'' && ' ' !in t)
  }

  /** Every token the scanner yields is well formed. */
  lemma {:induction false} ScanWellFormed(b: string, p: nat)
    requires p <= |b| && ScanFrom(b, p).Some?
    ensures forall t :: t in ScanFrom(b, p).value ==> WellFormedToken(t)
    decreases |b| - p
  {
    if p == |b| {
    } else if b[p] == ' ' {
      ScanWellFormed(b, p + 1);
    } else if b[p] == '\'' {
      var q := FindFrom(b, p + 1, '\'');
      ScanWellFormed(b, q + 1);
      FindFromSkips(b, p + 1, '\'');
      assert '\'' !in b[p + 1..q];
    } else {
      var q := FindFrom(b, p, ' ');
      if q < |b| {
        ScanWellFormed(b, q + 1);
        FindFromSkips(b, p, ' ');
        assert ' ' !in b[p..q];
        assert b[p..q][0] == b[p];
      }
    }
  }

  /** The tokens of a line are well formed. */
  lemma TokenizeWellFormed(line: string)
    requires Tokenize(line).Some?
    ensures forall t :: t in Tokenize(line).value ==> WellFormedToken(t)
  {
    ScanWellFormed(Buffer(line), 0);
  }

  /** A buffer without quotes never fails. */
  lemma {:induction false} NoQuoteScans(b: string, p: nat)
    requires p <= |b|
    requires forall j :: p <= j < |b| ==> b[j] != '\''
    ensures ScanFrom(b, p).Some?
    decreases |b| - p
  {
    if p < |b| {
      if b[p] == ' ' {
        NoQuoteScans(b, p + 1);
      } else {
        var q := FindFrom(b, p, ' ');
        if q < |b| {
          NoQuoteScans(b, q + 1);
        }
      }
    }
  }

  /** The buffer is the line with its final newline turned into a space,
      or with a space added when there is no final newline. */
  lemma BufferChars(line: string)
    ensures var b := Buffer(line);
            b[|b| - 1] == ' ' &&
            (if |line| > 0 && line[|line| - 1] == '\n' then line == b[..|b| - 1] + "\n" else line == b[..|b| - 1])
    ensures forall j :: 0 <= j < |Buffer(line)| ==> Buffer(line)[j] == ' ' || Buffer(line)[j] == line[j]
  {
    var b := Buffer(line);
    if |line| > 0 && line[|line| - 1] == '\n' {
      assert b[..|b| - 1] == line[..|line| - 1];
    } else {
      assert b[..|b| - 1] == line;
    }
  }

  /** A line can fail to tokenize only if it holds a quote. */
  lemma FailureNeedsQuote(line: string)
    ensures Tokenize(line).None? ==> '\'' in line
  {
    if '\'' !in line {
      BufferChars(line);
      NoQuoteScans(Buffer(line), 0);
    }
  }

  /** Re-tokenizing a well-formed token never fails, which is why
      expanding an alias whose value was stored by the `alias` builtin
      never reports a missing quote. */
  lemma WellFormedRetokenizes(t: string)
    requires WellFormedToken(t)
    ensures Tokenize(t).Some?
  {
    var b := Buffer(t);
    BufferChars(t);
    if '\'' !in t {
      NoQuoteScans(b, 0);
    } else {
      var u := b[..|b| - 1];
      assert b == u + " " + "";
      assert forall i :: 0 <= i < |u| ==> u[i] == t[i];
      if u == [] {
        ScanSpaceThen("");
      } else {
        assert ' ' !in u;
        ScanPlainThen(u, "");
      }
    }
  }

  // ---------------------------------------------------------------------
  // The scan depends only on what lies ahead of the position

  lemma {:induction false} FindFromAt(s: string, d: nat, b: string, i: nat, c: char)
    requires EndsWith(s, d, b) && i <= |b|
    ensures FindFrom(s, d + i, c) == d + FindFrom(b, i, c)
    decreases |b| - i
  {
    if i < |b| {
      assert s[d + i] == b[i];
      if b[i] != c {
        FindFromAt(s, d, b, i + 1, c);
      }
    }
  }

  /** The search for `c` from a position depends only on the text from there on. */
  lemma FindFromShift(a: string, b: string, i: nat, c: char)
    requires i <= |b|
    ensures FindFrom(a + b, |a| + i, c) == |a| + FindFrom(b, i, c)
  {
    EndsWithAppend(a, b);
    FindFromAt(a + b, |a|, b, i, c);
  }

  /** Scanning from a position depends only on the text from there on. */
  lemma ScanFromShift(a: string, b: string, p: nat)
    requires p <= |b|
    ensures ScanFrom(a + b, |a| + p) == ScanFrom(b, p)
  {
    EndsWithAppend(a, b);
    ScanFromAt(a + b, |a|, b, p);
  }

  /** Scanning `s` from `d + p` gives what scanning `b` from `p` gives. */
  predicate ScanAgrees(s: string, d: nat, b: string, p: nat)
    requires |s| == d + |b| && p <= |b|
  {
    ScanFrom(s, d + p) == ScanFrom(b, p)
  }

  lemma {:induction false} ScanFromAt(s: string, d: nat, b: string, p: nat)
    requires EndsWith(s, d, b) && p <= |b|
    ensures ScanAgrees(s, d, b, p)
    decreases |b| - p
  {
    if p == |b| {
    } else if b[p] == ' ' {
      ScanFromAt(s, d, b, p + 1);
      ScanSpaceAt(s, d, b, p);
    } else if b[p] == '\'' {
      var q := FindFrom(b, p + 1, '\'');
      if q < |b| {
        ScanFromAt(s, d, b, q + 1);
      }
      ScanQuotedStepAt(s, d, b, p, q);
    } else {
      var q := FindFrom(b, p, ' ');
      if q < |b| {
        ScanFromAt(s, d, b, q + 1);
      }
      ScanPlainStepAt(s, d, b, p, q);
    }
  }

  lemma ScanSpaceAt(s: string, d: nat, b: string, p: nat)
    requires EndsWith(s, d, b) && p < |b| && b[p] == ' '
    requires ScanAgrees(s, d, b, p + 1)
    ensures ScanAgrees(s, d, b, p)
  {
    assert s[d + p] == ' ';
  }

  lemma ScanQuotedStepAt(s: string, d: nat, b: string, p: nat, q: nat)
    requires EndsWith(s, d, b) && p < |b| && b[p] == '\'' && q == FindFrom(b, p + 1, '\'')
    requires q < |b| ==> ScanAgrees(s, d, b, q + 1)
    ensures ScanAgrees(s, d, b, p)
  {
    FindFromAt(s, d, b, p + 1, '\'');
    if q < |b| {
      SliceAt(s, d, b, p + 1, q);
    }
    assert s[d + p] == '\'';
    ScanQuotedAt(s, d, b, p, q);
  }

  lemma ScanPlainStepAt(s: string, d: nat, b: string, p: nat, q: nat)
    requires EndsWith(s, d, b) && p < |b| && b[p] != ' ' && b[p] != '\'' && q == FindFrom(b, p, ' ')
    requires q < |b| ==> ScanAgrees(s, d, b, q + 1)
    ensures ScanAgrees(s, d, b, p)
  {
    FindFromAt(s, d, b, p, ' ');
    if q < |b| {
      SliceAt(s, d, b, p, q);
    }
    assert s[d + p] == b[p];
    ScanPlainAt(s, d, b, p, q);
  }

  /** A quoted token at `p` of `b`, read at `d + p` of a text that ends with `b`. */
  lemma ScanQuotedAt(s: string, d: nat, b: string, p: nat, q: nat)
    requires |s| == d + |b| && p < |b| && s[d + p] == '\'' && b[p] == '\''
    requires q == FindFrom(b, p + 1, '\'') && FindFrom(s, d + p + 1, '\'') == d + q
    requires q < |b| ==> s[d + p + 1..d + q] == b[p + 1..q] && ScanFrom(s, d + q + 1) == ScanFrom(b, q + 1)
    ensures ScanFrom(s, d + p) == ScanFrom(b, p)
  {
  }

  /** A plain token at `p` of `b`, read at `d + p` of a text that ends with `b`. */
  lemma ScanPlainAt(s: string, d: nat, b: string, p: nat, q: nat)
    requires |s| == d + |b| && p < |b| && s[d + p] == b[p] && b[p] != ' ' && b[p] != '\''
    requires q == FindFrom(b, p, ' ') && FindFrom(s, d + p, ' ') == d + q
    requires q < |b| ==> s[d + p..d + q] == b[p..q] && ScanFrom(s, d + q + 1) == ScanFrom(b, q + 1)
    ensures ScanFrom(s, d + p) == ScanFrom(b, p)
  {
  }

  // ---------------------------------------------------------------------
  // Rendering tokens as a line, and reading them back

  /** A token that needs no quotes. */
  predicate Plain(t: string)
  {
    t != [] && t[0] != '\'' && ' ' !in t
  }

  /** A token that can be written on a line: plain, or free of quotes. */
  predicate Quotable(t: string)
  {
    Plain(t) || '\'' !in t
  }

  function Quote(t: string): string
  {
    if Plain(t) then t else "'" + t + "'"
  }

  /** Each token written out and followed by one space. */
  function Spaced(ts: seq<string>): string
  {
    if ts == [] then "" else Quote(ts[0]) + " " + Spaced(ts[1..])
  }

  /** The tokens written out, separated by single spaces. */
  function Join(ts: seq<string>): string
  {
    if ts == [] then ""
    else if |ts| == 1 then Quote(ts[0])
    else Quote(ts[0]) + " " + Join(ts[1..])
  }

  /** The tokens written out as a line read by fgets. */
  function RenderLine(ts: seq<string>): string
  {
    Join(ts) + "\n"
  }

  lemma {:induction false} JoinSpaced(ts: seq<string>)
    requires ts != []
    ensures Join(ts) + " " == Spaced(ts)
  {
    if |ts| > 1 {
      JoinSpaced(ts[1..]);
    }
  }

  /** The first `c` from `i` on is at `k`. */
  lemma FindFromIs(s: string, i: nat, k: nat, c: char)
    requires i <= k < |s| && s[k] == c
    requires forall j :: i <= j < k ==> s[j] != c
    ensures FindFrom(s, i, c) == k
  {
    FindFromSkips(s, i, c);
  }

  /** Scanning from a quote at `p` whose closing quote is at `q`. */
  lemma ScanQuotedHead(s: string, p: nat, q: nat)
    requires p < |s| && s[p] == '\'' && q == FindFrom(s, p + 1, '\'')
    ensures q == |s| ==> ScanFrom(s, p) == None
    ensures q < |s| ==> ScanFrom(s, p) == Prepend([s[p + 1..q]], ScanFrom(s, q + 1))
  {
  }

  /** Scanning from a plain token at `p` whose end is at `q`. */
  lemma ScanPlainHead(s: string, p: nat, q: nat)
    requires p < |s| && s[p] != ' ' && s[p] != '\'' && q == FindFrom(s, p, ' ')
    ensures q == |s| ==> ScanFrom(s, p) == Some([])
    ensures q < |s| ==> ScanFrom(s, p) == Prepend([s[p..q]], ScanFrom(s, q + 1))
  {
  }

  /** A quoted token is read up to its closing quote, whatever follows. */
  lemma ScanQuotedThen(t: string, x: string)
    requires '\'' !in t
    ensures ScanFrom("'" + t + "'" + x, 0) == Prepend([t], ScanFrom(x, 0))
  {
    var w := "'" + t + "'";
    var s := w + x;
    assert forall j :: 1 <= j < |t| + 1 ==> s[j] == t[j - 1];
    assert s[|t| + 1] == '\'';
    FindFromIs(s, 1, |t| + 1, '\'');
    assert s[1..|t| + 1] == t;
    ScanQuotedHead(s, 0, |t| + 1);
    ScanFromShift(w, x, 0);
  }

  /** A plain token is read up to the space after it. */
  lemma ScanPlainThen(t: string, x: string)
    requires Plain(t)
    ensures ScanFrom(t + " " + x, 0) == Prepend([t], ScanFrom(x, 0))
  {
    var w := t + " ";
    var s := w + x;
    assert forall j :: 0 <= j < |t| ==> s[j] == t[j];
    assert s[|t|] == ' ';
    FindFromIs(s, 0, |t|, ' ');
    assert s[0..|t|] == t;
    ScanPlainHead(s, 0, |t|);
    ScanFromShift(w, x, 0);
  }

  /** A line holding one plain word, with or without its newline, is that
      one word. */
  lemma SingleWordLine(w: string)
    requires Plain(w) && '\n' !in w
    ensures Tokenize(w) == Some([w]) && Tokenize(w + "\n") == Some([w])
  {
    assert Buffer(w + "\n") == w + " " + "" by {
      assert (w + "\n")[..|w|] == w;
    }
    assert Buffer(w) == w + " " + "" by {
      assert w != [] && w[|w| - 1] != '\n';
    }
    ScanPlainThen(w, "");
    assert ScanFrom("", 0) == Some([]);
    assert [w] + [] == [w];
  }

  lemma ScanSpaceThen(x: string)
    ensures ScanFrom(" " + x, 0) == ScanFrom(x, 0)
  {
    ScanFromShift(" ", x, 0);
  }

  /** One rendered token, then a space, then anything. */
  lemma ScanQuote(t: string, x: string)
    requires Quotable(t)
    ensures ScanFrom(Quote(t) + " " + x, 0) == Prepend([t], ScanFrom(x, 0))
  {
    if Plain(t) {
      ScanPlainThen(t, x);
    } else {
      assert Quote(t) + " " + x == "'" + t + "'" + (" " + x);
      ScanQuotedThen(t, " " + x);
      ScanSpaceThen(x);
    }
  }

  /** Scanning rendered tokens gives them back, whatever follows them. */
  lemma {:induction false} ScanSpaced(ts: seq<string>, x: string)
    requires forall i :: 0 <= i < |ts| ==> Quotable(ts[i])
    ensures ScanFrom(Spaced(ts) + x, 0) == Prepend(ts, ScanFrom(x, 0))
  {
    if ts == [] {
      assert Spaced(ts) + x == x;
      PrependNil(ScanFrom(x, 0));
    } else {
      var rest := Spaced(ts[1..]) + x;
      assert Spaced(ts) + x == Quote(ts[0]) + " " + rest;
      ScanQuote(ts[0], rest);
      ScanSpaced(ts[1..], x);
      PrependAssoc([ts[0]], ts[1..], ScanFrom(x, 0));
      assert [ts[0]] + ts[1..] == ts;
    }
  }

  /** Round trip: a line made of rendered tokens tokenizes to exactly
      those tokens. */
  lemma TokenizeRenderLine(ts: seq<string>)
    requires forall i :: 0 <= i < |ts| ==> Quotable(ts[i])
    ensures Tokenize(RenderLine(ts)) == Some(ts)
  {
    var line := RenderLine(ts);
    assert Buffer(line) == Join(ts) + " ";
    if ts == [] {
      assert Buffer(line) == " " + "";
      ScanSpaceThen("");
    } else {
      JoinSpaced(ts);
      ScanSpaced(ts, "");
      assert Spaced(ts) + "" == Spaced(ts);
      assert ts + [] == ts;
    }
  }

  lemma BufferAppend(x: string, y: string)
    requires y != []
    ensures Buffer(x + y) == x + Buffer(y)
  {
    var xy := x + y;
    assert xy[|xy| - 1] == y[|y| - 1];
    if y[|y| - 1] == '\n' {
      assert xy[..|xy| - 1] == x + y[..|y| - 1];
    }
  }

  lemma OpenQuoteFails(u: string)
    requires '\'' !in u
    ensures ScanFrom(Buffer("'" + u), 0) == None
  {
    var b := Buffer("'" + u);
    assert forall j :: 1 <= j < |b| ==> b[j] == ' ' || b[j] == u[j - 1];
    assert FindFrom(b, 1, '\'') == |b|;
  }

  /** An opening quote that is never closed discards the whole line, even
      after well-formed tokens. */
  lemma UnclosedQuoteFails(ts: seq<string>, u: string)
    requires forall i :: 0 <= i < |ts| ==> Quotable(ts[i])
    requires '\'' !in u
    ensures Tokenize(Spaced(ts) + "'" + u) == None
  {
    BufferAppend(Spaced(ts), "'" + u);
    assert Spaced(ts) + "'" + u == Spaced(ts) + ("'" + u);
    OpenQuoteFails(u);
    ScanSpaced(ts, Buffer("'" + u));
  }

  // ---------------------------------------------------------------------
  // Lines without quotes: splitting on runs of spaces

  /** The characters of `s` other than spaces. */
  function Squeeze(s: string): string
  {
    if s == [] then "" else (if s[0] == ' ' then "" else [s[0]]) + Squeeze(s[1..])
  }

  function Concat(ts: seq<string>): string
  {
    if ts == [] then "" else ts[0] + Concat(ts[1..])
  }

  lemma {:induction false} SqueezeAppend(x: string, y: string)
    ensures Squeeze(x + y) == Squeeze(x) + Squeeze(y)
  {
    if x != [] {
      assert (x + y)[1..] == x[1..] + y;
      SqueezeAppend(x[1..], y);
    } else {
      assert x + y == y;
    }
  }

  lemma {:induction false} SqueezeSpaceFree(x: string)
    requires ' ' !in x
    ensures Squeeze(x) == x
  {
    if x != [] {
      assert forall c :: c in x[1..] ==> c in x;
      SqueezeSpaceFree(x[1..]);
      assert x == [x[0]] + x[1..];
    }
  }

  lemma SqueezeSpaceHead(b: string, p: nat)
    requires p < |b| && b[p] == ' '
    ensures Squeeze(b[p..]) == Squeeze(b[p + 1..])
  {
    assert b[p..][1..] == b[p + 1..];
  }

  lemma SqueezeTokenHead(b: string, p: nat, q: nat)
    requires p <= q < |b| && b[q] == ' '
    requires forall j :: p <= j < q ==> b[j] != ' '
    ensures Squeeze(b[p..]) == b[p..q] + Squeeze(b[q + 1..])
  {
    assert b[p..] == b[p..q] + b[q..];
    SqueezeAppend(b[p..q], b[q..]);
    SqueezeSpaceFree(b[p..q]);
    SqueezeSpaceHead(b, q);
  }

  lemma ConcatCons(t: string, ts: seq<string>)
    ensures Concat([t] + ts) == t + Concat(ts)
  {
    assert ([t] + ts)[1..] == ts;
  }

  /** Without quotes, a buffer ending in a space splits into non-empty,
      space-free tokens that together hold every other character, in
      order: runs of spaces (leading, trailing or repeated) yield no
      tokens. */
  lemma {:induction false} ScanSplitsOnSpaces(b: string, p: nat)
    requires p <= |b|
    requires forall j :: p <= j < |b| ==> b[j] != '\''
    requires p == |b| || b[|b| - 1] == ' '
    ensures ScanFrom(b, p).Some?
    ensures forall t :: t in ScanFrom(b, p).value ==> t != [] && ' ' !in t
    ensures Concat(ScanFrom(b, p).value) == Squeeze(b[p..])
    decreases |b| - p
  {
    if p == |b| {
      assert b[p..] == [];
    } else if b[p] == ' ' {
      ScanSplitsOnSpaces(b, p + 1);
      SqueezeSpaceHead(b, p);
    } else {
      var q := FindFrom(b, p, ' ');
      FindFromSkips(b, p, ' ');
      assert q < |b|;
      var t := b[p..q];
      ScanSplitsOnSpaces(b, q + 1);
      var ts := ScanFrom(b, q + 1).value;
      assert ScanFrom(b, p) == Some([t] + ts);
      SqueezeTokenHead(b, p, q);
      ConcatCons(t, ts);
      assert t[0] == b[p] && ' ' !in t;
    }
  }

  /** The same for a whole line without quotes. */
  lemma TokenizeWithoutQuotes(line: string)
    requires '\'' !in line
    ensures Tokenize(line).Some?
    ensures forall t :: t in Tokenize(line).value ==> t != [] && ' ' !in t
    ensures Concat(Tokenize(line).value) == Squeeze(Buffer(line))
  {
    BufferChars(line);
    ScanSplitsOnSpaces(Buffer(line), 0);
    assert Buffer(line)[0..] == Buffer(line);
  }

  lemma {:induction false} AllSpacesSqueeze(b: string)
    requires forall i :: 0 <= i < |b| ==> b[i] == ' '
    ensures Squeeze(b) == ""
  {
    if b != [] {
      AllSpacesSqueeze(b[1..]);
    }
  }

  lemma {:induction false} SpacesScan(b: string, p: nat)
    requires p <= |b|
    requires forall i :: p <= i < |b| ==> b[i] == ' '
    ensures ScanFrom(b, p) == Some([])
    decreases |b| - p
  {
    if p < |b| {
      SpacesScan(b, p + 1);
    }
  }

  /** A line of nothing but spaces (and its newline) has no tokens. */
  lemma BlankLineHasNoTokens(line: string)
    requires forall i :: 0 <= i < |line| ==> line[i] == ' ' || (i == |line| - 1 && line[i] == '\n')
    ensures Tokenize(line) == Some([])
  {
    SpacesScan(Buffer(line), 0);
  }

  // ---------------------------------------------------------------------
  // The examples the shell's behaviour is built around

  lemma ExampleQuotedSpaces()
    ensures Tokenize("echo 'a b' c") == Some(["echo", "a b", "c"])
  {
    var b := Buffer("echo 'a b' c");
    var rest := " " + ("c" + " " + "");
    assert b == "echo" + " " + ("'" + "a b" + "'" + rest);
    ScanPlainThen("echo", "'" + "a b" + "'" + rest);
    ScanQuotedThen("a b", rest);
    ScanSpaceThen("c" + " " + "");
    ScanPlainThen("c", "");
    assert ScanFrom("", 0) == Some([]);
    assert ScanFrom(b, 0) == Some(["echo"] + (["a b"] + (["c"] + [])));
    assert ["echo"] + (["a b"] + (["c"] + [])) == ["echo", "a b", "c"];
  }

  lemma ExampleQuoteThenText()
    ensures Tokenize("'x'y") == Some(["x", "y"])
  {
    var b := Buffer("'x'y");
    assert b == "'" + "x" + "'" + ("y" + " " + "");
    ScanQuotedThen("x", "y" + " " + "");
    ScanPlainThen("y", "");
    assert ScanFrom("", 0) == Some([]);
    assert ScanFrom(b, 0) == Some(["x"] + (["y"] + []));
    assert ["x"] + (["y"] + []) == ["x", "y"];
  }

  lemma ExampleInnerQuote()
    ensures Tokenize("a'b") == Some(["a'b"])
  {
    SingleWordLine("a'b");
  }

  lemma ExampleEmptyQuoted()
    ensures Tokenize("''") == Some([""])
  {
    var b := Buffer("''");
    assert b == "'" + "" + "'" + (" " + "");
    ScanQuotedThen("", " " + "");
    ScanSpaceThen("");
    assert ScanFrom("", 0) == Some([]);
    assert ScanFrom(b, 0) == Some([""] + []);
    assert [""] + [] == [""];
  }

  lemma ExampleUnclosed()
    ensures Tokenize("echo 'oops\n") == None
  {
    assert Spaced(["echo"]) == "echo ";
    assert "echo 'oops\n" == Spaced(["echo"]) + "'" + "oops\n";
    UnclosedQuoteFails(["echo"], "oops\n");
  }
}
