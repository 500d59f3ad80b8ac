/**
 * The cleaning transform applied to every message text and response value:
 *
 *   text.replace(/```[\w]*\n?/g, '').replace(/`([^`]+)`/g, '$1')
 *
 * Each global `replace` is a left-to-right scan: at each position the pattern is tried,
 * a match is replaced and the scan resumes after it, otherwise one character is copied
 * and the scan moves on by one. Both patterns are written out as such scans.
 */
module Cleaning {
  import opened Strings

  /** The class `[\w]` of a regular expression without the `u` flag. */
  predicate IsWordChar(c: char)
  {
    'A' <= c <= 'Z' || 'a' <= c <= 'z' || '0' <= c <= '9' || c == '_'
  }

  predicate AllWordChars(s: string)
  {
    forall i :: 0 <= i < |s| ==> IsWordChar(s[i])
  }

  predicate BacktickFree(s: string)
  {
    '`' !in s
  }

  /** Three backticks start at index `i` of `s`. */
  predicate FenceAt(s: string, i: int)
  {
    0 <= i && i + 3 <= |s| && s[i] == '`' && s[i + 1] == '`' && s[i + 2] == '`'
  }

  /** No run of three backticks anywhere in `s`. */
  predicate NoFence(s: string)
  {
    forall i :: 0 <= i < |s| ==> !FenceAt(s, i)
  }

  // ---------------------------------------------------------------------------
  // First pass: /```[\w]*\n?/g  ->  ''
  // ---------------------------------------------------------------------------

  /** The greedy `[\w]*`: drops the leading run of word characters. */
  function DropWord(s: string): (r: string)
    ensures |r| <= |s| && r == s[|s| - |r|..]
    ensures r == [] || !IsWordChar(r[0])
    ensures forall i :: 0 <= i < |s| - |r| ==> IsWordChar(s[i])
  {
    if s != [] && IsWordChar(s[0]) then
      var t := s[1..];
      var r := DropWord(t);
      assert t[|t| - |r|..] == s[|s| - |r|..];
      assert forall i :: 1 <= i < |s| - |r| ==> s[i] == t[i - 1];
      r
    else s
  }

  /** The optional `\n?`. */
  function DropNewline(s: string): string
  {
    if s != [] && s[0] == '\n' then s[1..] else s
  }

  /** What is left of `s` after the fence match at its start. */
  function AfterFence(s: string): (r: string)
    requires FenceAt(s, 0)
    ensures |r| <= |s| - 3 && r == s[|s| - |r|..]
  {
    DropNewline(DropWord(s[3..]))
  }

  /** Deletes every fence opener or closer: three backticks, a word, an optional newline. */
  function StripFences(s: string): (r: string)
    ensures |r| <= |s|
    decreases |s|
  {
    if FenceAt(s, 0) then StripFences(AfterFence(s))
    else if s == [] then []
    else [s[0]] + StripFences(s[1..])
  }

  // ---------------------------------------------------------------------------
  // Second pass: /`([^`]+)`/g  ->  '$1'
  // ---------------------------------------------------------------------------

  /** Index of the first backtick of `t`, or `|t|` when it has none. */
  function FirstBacktick(t: string): (k: nat)
    ensures k <= |t|
    ensures BacktickFree(t[..k])
    ensures k < |t| ==> t[k] == '`'
  {
    if t == [] || t[0] == '`' then 0
    else
      var k := FirstBacktick(t[1..]);
      assert t[..k + 1] == [t[0]] + t[1..][..k];
      k + 1
  }

  /**
   * An inline span starts at the head of `s`: a backtick, then at least one
   * character other than a backtick, then a backtick.
   */
  predicate SpanAtStart(s: string)
  {
    s != [] && s[0] == '`' && 0 < FirstBacktick(s[1..]) < |s| - 1
  }

  /** Replaces every inline span by the text between its backticks. */
  function UnwrapInline(s: string): (r: string)
    ensures |r| <= |s|
    decreases |s|
  {
    if s == [] then []
    else if SpanAtStart(s) then
      var k := FirstBacktick(s[1..]);
      s[1..k + 1] + UnwrapInline(s[k + 2..])
    else [s[0]] + UnwrapInline(s[1..])
  }

  /** The cleaning transform: first the fences, then the inline spans. */
  function Clean(s: string): string
  {
    UnwrapInline(StripFences(s))
  }

  // ---------------------------------------------------------------------------
  // Cleaning only deletes characters
  // ---------------------------------------------------------------------------

  lemma {:induction false} StripFencesSubseq(s: string)
    ensures IsSubseq(StripFences(s), s)
    decreases |s|
  {
    if FenceAt(s, 0) {
      var t := AfterFence(s);
      StripFencesSubseq(t);
      assert s == s[..|s| - |t|] + t;
      SubseqSkip(StripFences(t), s[..|s| - |t|], t);
    } else if s != [] {
      StripFencesSubseq(s[1..]);
      SubseqPrepend([s[0]], StripFences(s[1..]), s[1..]);
      assert [s[0]] + s[1..] == s;
    }
  }

  /** How `s` falls apart around the inline span at its start. */
  lemma SpanParts(s: string)
    requires SpanAtStart(s)
    ensures var k := FirstBacktick(s[1..]);
      s == [s[0]] + (s[1..k + 1] + ([s[k + 1]] + s[k + 2..])) &&
      UnwrapInline(s) == s[1..k + 1] + UnwrapInline(s[k + 2..])
  {
  }

  lemma {:induction false} UnwrapInlineSubseq(s: string)
    ensures IsSubseq(UnwrapInline(s), s)
    decreases |s|
  {
    if s == [] {
    } else if SpanAtStart(s) {
      var k := FirstBacktick(s[1..]);
      var inside, rest := s[1..k + 1], s[k + 2..];
      SpanParts(s);
      UnwrapInlineSubseq(rest);
      SubseqSkip(UnwrapInline(rest), [s[k + 1]], rest);
      SubseqPrepend(inside, UnwrapInline(rest), [s[k + 1]] + rest);
      SubseqSkip(inside + UnwrapInline(rest), [s[0]], inside + ([s[k + 1]] + rest));
    } else {
      UnwrapInlineSubseq(s[1..]);
      SubseqPrepend([s[0]], UnwrapInline(s[1..]), s[1..]);
      assert [s[0]] + s[1..] == s;
    }
  }

  /** The cleaned text is the input with some characters deleted, so never longer. */
  lemma CleanSubseq(s: string)
    ensures IsSubseq(Clean(s), s)
    ensures |Clean(s)| <= |s|
  {
    StripFencesSubseq(s);
    UnwrapInlineSubseq(StripFences(s));
    SubseqTrans(Clean(s), StripFences(s), s);
    SubseqLength(Clean(s), s);
  }

  // ---------------------------------------------------------------------------
  // Text without backticks is left alone
  // ---------------------------------------------------------------------------

  lemma {:induction false} StripFencesFixed(s: string)
    requires NoFence(s)
    ensures StripFences(s) == s
    decreases |s|
  {
    if s != [] {
      assert !FenceAt(s, 0);
      forall i ensures !FenceAt(s[1..], i) {
        assert FenceAt(s[1..], i) ==> FenceAt(s, i + 1);
      }
      StripFencesFixed(s[1..]);
      assert [s[0]] + s[1..] == s;
    }
  }

  lemma {:induction false} UnwrapInlineFixed(s: string)
    requires BacktickFree(s)
    ensures UnwrapInline(s) == s
    decreases |s|
  {
    if s != [] {
      assert s[0] in s;
      assert forall c :: c in s[1..] ==> c in s;
      UnwrapInlineFixed(s[1..]);
      assert [s[0]] + s[1..] == s;
    }
  }

  lemma BacktickFreeNoFence(s: string)
    requires BacktickFree(s)
    ensures NoFence(s)
  {
    forall i ensures !FenceAt(s, i) {
      if 0 <= i < |s| {
        assert s[i] in s;
      }
    }
  }

  /** A string without a backtick comes out of cleaning unchanged. */
  lemma CleanBacktickFree(s: string)
    requires BacktickFree(s)
    ensures Clean(s) == s
  {
    BacktickFreeNoFence(s);
    StripFencesFixed(s);
    UnwrapInlineFixed(s);
  }

  // ---------------------------------------------------------------------------
  // No run of three backticks survives
  // ---------------------------------------------------------------------------

  /** A backtick at the head of the first pass's output was a backtick at the head of its input. */
  lemma StripFencesHead(u: string)
    ensures StripFences(u) != [] && StripFences(u)[0] == '`' ==> u != [] && u[0] == '`'
  {
  }

  lemma StripFencesTwoTicks(t: string)
    ensures (var r := StripFences(t); |r| >= 2 && r[0] == '`' && r[1] == '`') ==>
      |t| >= 2 && t[0] == '`' && t[1] == '`'
  {
    if !FenceAt(t, 0) && t != [] {
      StripFencesHead(t[1..]);
    }
  }

  /**
   * The leftmost-first global scan leaves no three backticks in a row: a copied
   * backtick is never followed by two more, or the scan would have matched there.
   */
  lemma {:induction false} StripFencesNoFence(s: string)
    ensures NoFence(StripFences(s))
    decreases |s|
  {
    if FenceAt(s, 0) {
      StripFencesNoFence(AfterFence(s));
    } else if s != [] {
      var t := s[1..];
      var rest := StripFences(t);
      var r := StripFences(s);
      assert r == [s[0]] + rest;
      StripFencesNoFence(t);
      StripFencesTwoTicks(t);
      forall i | 0 <= i < |r| ensures !FenceAt(r, i) {
        if i > 0 {
          assert FenceAt(r, i) ==> FenceAt(rest, i - 1);
        }
      }
    }
  }

  lemma UnwrapInlineHead(u: string)
    ensures UnwrapInline(u) != [] && UnwrapInline(u)[0] == '`' ==> u != [] && u[0] == '`' && !SpanAtStart(u)
  {
    if SpanAtStart(u) {
      var k := FirstBacktick(u[1..]);
      assert u[1..][..k][0] in u[1..][..k];
    }
  }

  lemma UnwrapInlineTwoTicks(u: string)
    ensures (var r := UnwrapInline(u); |r| >= 2 && r[0] == '`' && r[1] == '`') ==>
      |u| >= 2 && u[0] == '`' && u[1] == '`'
  {
    UnwrapInlineHead(u);
    if u != [] && !SpanAtStart(u) {
      UnwrapInlineHead(u[1..]);
    }
  }

  /** A suffix of a string without a fence has none. */
  lemma NoFenceSuffix(t: string, n: nat)
    requires NoFence(t) && n <= |t|
    ensures NoFence(t[n..])
  {
    forall i | 0 <= i < |t[n..]| ensures !FenceAt(t[n..], i) {
      assert FenceAt(t[n..], i) ==> FenceAt(t, i + n);
    }
  }

  /** A fence in `a + b` that does not start inside the backtick-free `a`. */
  lemma NoFenceAfterFree(a: string, b: string)
    requires BacktickFree(a) && NoFence(b)
    ensures NoFence(a + b)
  {
    var r := a + b;
    forall i | 0 <= i < |r| ensures !FenceAt(r, i) {
      if i < |a| {
        assert r[i] == a[i] && a[i] in a;
      } else {
        assert FenceAt(r, i) ==> FenceAt(b, i - |a|);
      }
    }
  }

  /** A character in front of a fence-free string, when it does not start a fence. */
  lemma NoFenceCons(c: char, b: string)
    requires NoFence(b)
    requires !(c == '`' && |b| >= 2 && b[0] == '`' && b[1] == '`')
    ensures NoFence([c] + b)
  {
    var r := [c] + b;
    forall i | 0 <= i < |r| ensures !FenceAt(r, i) {
      if i > 0 {
        assert FenceAt(r, i) ==> FenceAt(b, i - 1);
      }
    }
  }

  /**
   * The second pass cannot create a run of three backticks: an unwrapped span leaves
   * at least one non-backtick character between the backticks around it.
   */
  lemma {:induction false} UnwrapInlineKeepsNoFence(t: string)
    requires NoFence(t)
    ensures NoFence(UnwrapInline(t))
    decreases |t|
  {
    if t == [] {
    } else if SpanAtStart(t) {
      var k := FirstBacktick(t[1..]);
      SpanParts(t);
      NoFenceSuffix(t, k + 2);
      UnwrapInlineKeepsNoFence(t[k + 2..]);
      NoFenceAfterFree(t[1..k + 1], UnwrapInline(t[k + 2..]));
    } else {
      NoFenceSuffix(t, 1);
      UnwrapInlineKeepsNoFence(t[1..]);
      UnwrapInlineTwoTicks(t[1..]);
      assert !FenceAt(t, 0);
      NoFenceCons(t[0], UnwrapInline(t[1..]));
    }
  }

  /** After cleaning, no run of three backticks remains. */
  lemma CleanNoFence(s: string)
    ensures NoFence(Clean(s))
  {
    StripFencesNoFence(s);
    UnwrapInlineKeepsNoFence(StripFences(s));
  }

  /** The first pass is idempotent. */
  lemma StripFencesIdempotent(s: string)
    ensures StripFences(StripFences(s)) == StripFences(s)
  {
    StripFencesNoFence(s);
    StripFencesFixed(StripFences(s));
  }

  /**
   * Cleaning as a whole is not idempotent: "``x``" has no span at its first backtick,
   * so one pass leaves "`x`", which a second pass unwraps.
   */
  lemma CleanNotIdempotent()
    ensures Clean("``x``") == "`x`"
    ensures Clean(Clean("``x``")) == "x"
  {
    var s := "``x``";
    BacktickFreeNoFence("x");
    assert NoFence(s) by {
      forall i | 0 <= i < |s| ensures !FenceAt(s, i) {
        assert s[2] == 'x';
      }
    }
    StripFencesFixed(s);
    assert FirstBacktick(s[1..]) == 0;
    assert UnwrapInline(s) == "`" + UnwrapInline("`x``");
    assert FirstBacktick("x``") == 1;
    assert UnwrapInline("`x``") == "x" + UnwrapInline("`");
    assert UnwrapInline("`") == "`";
    var once := "`x`";
    assert NoFence(once) by {
      forall i | 0 <= i < |once| ensures !FenceAt(once, i) {
        assert once[1] == 'x';
      }
    }
    StripFencesFixed(once);
    assert FirstBacktick("x`") == 1;
    assert UnwrapInline(once) == "x" + UnwrapInline([]);
  }

  // ---------------------------------------------------------------------------
  // What the two passes do to spans and fences in context
  // ---------------------------------------------------------------------------

  lemma {:induction false} DropWordPrefix(w: string, q: string)
    requires AllWordChars(w)
    requires q == [] || !IsWordChar(q[0])
    ensures DropWord(w + q) == q
    decreases |w|
  {
    if w == [] {
      assert w + q == q;
    } else {
      assert (w + q)[1..] == w[1..] + q;
      DropWordPrefix(w[1..], q);
    }
  }

  /** A fence match at the very start: the backticks, the word and the newline go. */
  lemma StripFencesOpener(w: string, q: string)
    requires AllWordChars(w)
    requires q == [] || !IsWordChar(q[0])
    ensures StripFences("```" + (w + q)) == StripFences(DropNewline(q))
  {
    var t := w + q;
    var s := "```" + t;
    assert s[0] == '`' && s[1] == '`' && s[2] == '`';
    assert s[3..] == t;
    DropWordPrefix(w, q);
    assert AfterFence(s) == DropNewline(q);
  }

  lemma ConsAppend(p: string, r: string)
    requires p != []
    ensures p + r == [p[0]] + (p[1..] + r)
  {
    assert (p + r)[1..] == p[1..] + r;
  }

  /** A character other than a backtick is copied by the first pass. */
  lemma StripFencesCons(c: char, r: string)
    requires c != '`'
    ensures StripFences([c] + r) == [c] + StripFences(r)
  {
    var s := [c] + r;
    assert !FenceAt(s, 0);
    assert s[1..] == r;
  }

  lemma BacktickFreeTail(p: string)
    requires BacktickFree(p) && p != []
    ensures p[0] != '`' && BacktickFree(p[1..])
  {
    assert p[0] in p;
    assert forall c :: c in p[1..] ==> c in p;
  }

  /**
   * A fence opener or closer (three backticks, a word, the newline if there is one)
   * preceded by text without backticks is deleted and nothing else in front of it.
   */
  lemma {:induction false} StripFencesAt(p: string, w: string, q: string)
    requires BacktickFree(p) && AllWordChars(w)
    requires q == [] || !IsWordChar(q[0])
    ensures StripFences(p + ("```" + (w + q))) == p + StripFences(DropNewline(q))
    decreases |p|
  {
    var t := "```" + (w + q);
    if p == [] {
      assert p + t == t;
      StripFencesOpener(w, q);
    } else {
      BacktickFreeTail(p);
      ConsAppend(p, t);
      StripFencesCons(p[0], p[1..] + t);
      StripFencesAt(p[1..], w, q);
      ConsAppend(p, StripFences(DropNewline(q)));
    }
  }

  /** `strings` without backticks, joined, have none. */
  lemma BacktickFreeConcat(a: string, b: string)
    requires BacktickFree(a) && BacktickFree(b)
    ensures BacktickFree(a + b)
  {
  }

  /** Dropping the optional newline keeps a text free of backticks. */
  lemma DropNewlineBacktickFree(q: string)
    requires BacktickFree(q)
    ensures BacktickFree(DropNewline(q))
  {
    if q != [] && q[0] == '\n' {
      BacktickFreeTail(q);
    }
  }

  /**
   * A fenced block loses only its delimiters: the opener with its language tag and
   * newline, and the closer with the newline right after it, if there is one. The
   * code between them is kept.
   */
  lemma FencedBlockClean(p: string, w: string, code: string, q: string)
    requires BacktickFree(p) && BacktickFree(code) && BacktickFree(q) && AllWordChars(w)
    requires q == [] || !IsWordChar(q[0])
    ensures Clean(p + ("```" + (w + ("\n" + (code + ("```" + q)))))) == p + (code + DropNewline(q))
  {
    var closer := "```" + ([] + q);
    var tail := "\n" + (code + closer);
    var rest := DropNewline(q);
    assert [] + q == q;
    StripFencesAt(p, w, tail);
    assert DropNewline(tail) == code + closer;
    StripFencesAt(code, [], q);
    DropNewlineBacktickFree(q);
    BacktickFreeNoFence(rest);
    StripFencesFixed(rest);
    assert StripFences(p + ("```" + (w + tail))) == p + (code + rest);
    BacktickFreeConcat(code, rest);
    BacktickFreeConcat(p, code + rest);
    UnwrapInlineFixed(p + (code + rest));
  }

  lemma {:induction false} FirstBacktickAfter(x: string, rest: string)
    requires BacktickFree(x)
    requires rest != [] && rest[0] == '`'
    ensures FirstBacktick(x + rest) == |x|
    decreases |x|
  {
    if x == [] {
      assert x + rest == rest;
    } else {
      BacktickFreeTail(x);
      ConsAppend(x, rest);
      FirstBacktickAfter(x[1..], rest);
    }
  }

  /** The inline span `` `x` `` at the very start is replaced by `x`. */
  lemma UnwrapSpanStart(x: string, q: string)
    requires BacktickFree(x) && x != []
    ensures UnwrapInline("`" + (x + ("`" + q))) == x + UnwrapInline(q)
  {
    var t := x + ("`" + q);
    var s := "`" + t;
    assert s[1..] == t;
    FirstBacktickAfter(x, "`" + q);
    assert SpanAtStart(s);
    SpanParts(s);
    assert s[1..|x| + 1] == t[..|x|] == x;
    assert s[|x| + 2..] == t[|x| + 1..] == q;
  }

  /** The second pass replaces an inline span `` `x` `` by `x`, after copying what precedes it. */
  lemma {:induction false} UnwrapSpan(p: string, x: string, q: string)
    requires BacktickFree(p) && BacktickFree(x) && x != []
    ensures UnwrapInline(p + ("`" + (x + ("`" + q)))) == p + (x + UnwrapInline(q))
    decreases |p|
  {
    var t := "`" + (x + ("`" + q));
    if p == [] {
      assert p + t == t;
      UnwrapSpanStart(x, q);
    } else {
      BacktickFreeTail(p);
      ConsAppend(p, t);
      assert !SpanAtStart(p + t);
      UnwrapSpan(p[1..], x, q);
      ConsAppend(p, x + UnwrapInline(q));
    }
  }

  lemma SpanNoFence(p: string, x: string, q: string)
    requires BacktickFree(p) && BacktickFree(x) && x != [] && BacktickFree(q)
    ensures NoFence(p + ("`" + (x + ("`" + q))))
  {
    var s := p + ("`" + (x + ("`" + q)));
    forall i | 0 <= i < |s| ensures !FenceAt(s, i) {
      if i < |p| {
        assert s[i] == p[i] && p[i] in p;
      } else if i == |p| {
        assert s[i + 1] == x[0] && x[0] in x;
      } else if i <= |p| + |x| {
        assert s[i] == x[i - |p| - 1] && x[i - |p| - 1] in x;
      } else if i + 2 < |s| {
        assert s[i + 1] == q[i + 1 - |p| - |x| - 2] && q[i + 1 - |p| - |x| - 2] in q;
      }
    }
  }

  /** An inline span in text that has no other backtick is unwrapped, everything else kept. */
  lemma InlineSpanClean(p: string, x: string, q: string)
    requires BacktickFree(p) && BacktickFree(x) && x != [] && BacktickFree(q)
    ensures Clean(p + ("`" + (x + ("`" + q)))) == p + (x + q)
  {
    SpanNoFence(p, x, q);
    StripFencesFixed(p + ("`" + (x + ("`" + q))));
    UnwrapSpan(p, x, q);
    UnwrapInlineFixed(q);
  }

  /** A fenced block in running text keeps its code and loses its delimiters. */
  lemma FenceExample(s: string)
    requires s == "a ```js\ncode\n``` b"
    ensures Clean(s) == "a code\n b"
  {
    var p, w, code, q := "a ", "js", "code\n", " b";
    assert BacktickFree(p) && BacktickFree(code) && BacktickFree(q) && !IsWordChar(q[0]);
    assert s == p + ("```" + (w + ("\n" + (code + ("```" + q)))));
    FencedBlockClean(p, w, code, q);
    assert DropNewline(q) == q;
    assert p + (code + q) == "a code\n b";
  }

  lemma InlineExample(s: string)
    requires s == "Hello world, `please` help"
    ensures Clean(s) == "Hello world, please help"
  {
    var p, x, q := "Hello world, ", "please", " help";
    assert BacktickFree(p) && BacktickFree(x) && BacktickFree(q);
    assert s == p + ("`" + (x + ("`" + q)));
    InlineSpanClean(p, x, q);
    assert p + (x + q) == "Hello world, please help";
  }

  lemma ResponseFenceExample(s: string)
    requires s == "Sure, ```js\ncode\n``` here you go"
    ensures Clean(s) == "Sure, code\n here you go"
  {
    var p, w, code, q := "Sure, ", "js", "code\n", " here you go";
    ResponseFencePieces(p, w, code, q);
    ResponseFenceShape(s);
    FencedBlockClean(p, w, code, q);
    assert DropNewline(q) == q;
  }

  lemma ResponseFencePieces(p: string, w: string, code: string, q: string)
    requires p == "Sure, " && w == "js" && code == "code\n" && q == " here you go"
    ensures BacktickFree(p) && BacktickFree(code) && BacktickFree(q) && AllWordChars(w)
    ensures !IsWordChar(q[0]) && q[0] != '\n'
    ensures p + (code + q) == "Sure, code\n here you go"
  {
  }

  lemma ResponseFenceShape(s: string)
    requires s == "Sure, ```js\ncode\n``` here you go"
    ensures s == "Sure, " + ("```" + ("js" + ("\n" + ("code\n" + ("```" + " here you go")))))
  {
  }
}
