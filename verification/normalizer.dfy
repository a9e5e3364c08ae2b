/** The statement-text helpers of lib/pghero/methods/query_stats.rb:
    `normalize_query` (collapse placeholder lists, remove block comments, squish)
    and `explainable?`. Each regular-expression substitution is written out as
    a left-to-right scan with Ruby's leftmost, non-overlapping `gsub` semantics. */
module Normalizer {
  import opened Wrappers
  import opened Text
  import opened Ranking

  // ---------------------------------------------------------------------------
  // gsub(/\?(, ?\?)+/, "?")

  /** Length of one repetition of `, ?\?` at the front of `s` (`",?"` or `", ?"`),
      or 0 when none starts there. The optional blank is tried first, then
      skipped; exactly one of the two can succeed. */
  function PlaceholderRep(s: string): nat {
    if |s| >= 2 && s[0] == ',' && s[1] == '?' then 2
    else if |s| >= 3 && s[0] == ',' && s[1] == ' ' && s[2] == '?' then 3
    else 0
  }

  /** `t` is zero or more repetitions of `, ?\?`, each `",?"` or `", ?"`. */
  predicate PlaceholderReps(t: string)
    decreases |t|
  {
    || t == []
    || (|t| >= 2 && t[..2] == ",?" && PlaceholderReps(t[2..]))
    || (|t| >= 3 && t[..3] == ", ?" && PlaceholderReps(t[3..]))
  }

  /** The characters a placeholder list is made of. */
  predicate IsListChar(c: char) {
    c == ',' || c == ' ' || c == '?'
  }

  /** Length of the greedy `(, ?\?)+` run at the front of `s`: the run is made of
      whole repetitions only. */
  function PlaceholderRun(s: string): (n: nat)
    ensures n <= |s|
    ensures PlaceholderReps(s[..n])
    ensures forall i :: 0 <= i < n ==> IsListChar(s[i])
    decreases |s|
  {
    var k := PlaceholderRep(s);
    if k == 0 then 0
    else
      var m := PlaceholderRun(s[k..]);
      assert s[..k + m][k..] == s[k..][..m];
      assert s[..k + m][..k] == s[..k];
      assert forall i :: k <= i < k + m ==> s[i] == s[k..][i - k];
      k + m
  }

  /** The characters of `s` that cannot belong to a placeholder list, in order. */
  function OtherText(s: string): string
    decreases |s|
  {
    if s == [] then [] else (if IsListChar(s[0]) then [] else [s[0]]) + OtherText(s[1..])
  }

  lemma {:induction false} OtherTextAppend(a: string, b: string)
    ensures OtherText(a + b) == OtherText(a) + OtherText(b)
    decreases |a|
  {
    if a == [] {
      assert a + b == b;
    } else {
      assert (a + b)[1..] == a[1..] + b;
      OtherTextAppend(a[1..], b);
    }
  }

  lemma {:induction false} OtherTextOfList(u: string)
    requires forall i :: 0 <= i < |u| ==> IsListChar(u[i])
    ensures OtherText(u) == []
    decreases |u|
  {
    if u != [] {
      OtherTextOfList(u[1..]);
    }
  }

  /** `[c] + x` is a subsequence of `s` when `s` starts with `c` and `x` is a
      subsequence of the rest. */
  lemma ConsSubseq(c: char, x: string, s: string)
    requires s != [] && s[0] == c && IsSubseq(x, s[1..])
    ensures IsSubseq([c] + x, s)
  {
    assert ([c] + x)[1..] == x;
  }

  /** `gsub(/\?(, ?\?)+/, "?")`: each `?` followed by one or more `, ?` or `,?`
      repetitions is replaced, with the whole run, by a single `?`. Only list
      characters are removed: the result is a subsequence of the text and every
      other character survives, in order. */
  function CollapsePlaceholders(s: string): (r: string)
    ensures IsSubseq(r, s)
    ensures OtherText(r) == OtherText(s)
    decreases |s|
  {
    if s == [] then []
    else if s[0] == '?' && PlaceholderRep(s[1..]) > 0 then
      var n := PlaceholderRun(s[1..]);
      var t := s[1 + n..];
      var c := CollapsePlaceholders(t);
      assert s[1..][n..] == t;
      SubseqSuffix(c, s[1..], n);
      ConsSubseq('?', c, s);
      assert s[1..] == s[1..][..n] + t;
      OtherTextOfList(s[1..][..n]);
      OtherTextAppend(s[1..][..n], t);
      assert OtherText("?" + c) == OtherText(c) by { assert ("?" + c)[1..] == c; }
      "?" + c
    else
      var c := CollapsePlaceholders(s[1..]);
      ConsSubseq(s[0], c, s);
      assert ([s[0]] + c)[1..] == c;
      [s[0]] + c
  }

  /** No `?` in `s` is followed by a placeholder repetition: nothing left to collapse. */
  predicate NoPlaceholderList(s: string)
    decreases |s|
  {
    s == [] || ((s[0] == '?' ==> PlaceholderRep(s[1..]) == 0) && NoPlaceholderList(s[1..]))
  }

  lemma {:induction false} PlaceholderRunIsMaximal(s: string)
    ensures PlaceholderRep(s[PlaceholderRun(s)..]) == 0
    decreases |s|
  {
    var k := PlaceholderRep(s);
    if k != 0 {
      PlaceholderRunIsMaximal(s[k..]);
      assert s[PlaceholderRun(s)..] == s[k..][PlaceholderRun(s[k..])..];
    }
  }

  lemma CollapseKeepsHead(s: string)
    requires s != []
    ensures CollapsePlaceholders(s) != [] && CollapsePlaceholders(s)[0] == s[0]
  {
  }

  /** Collapsing does not create or destroy a repetition at the very front. */
  lemma CollapseKeepsLeadingRep(t: string)
    ensures PlaceholderRep(CollapsePlaceholders(t)) == PlaceholderRep(t)
  {
    if |t| >= 2 && t[0] == ',' {
      var c := CollapsePlaceholders(t);
      assert c == [','] + CollapsePlaceholders(t[1..]);
      CollapseKeepsHead(t[1..]);
      if t[1] == ' ' && |t| >= 3 {
        var c1 := CollapsePlaceholders(t[1..]);
        assert c1 == [' '] + CollapsePlaceholders(t[2..]);
        CollapseKeepsHead(t[2..]);
      }
    } else if t != [] {
      CollapseKeepsHead(t);
    }
  }

  /** After the substitution no placeholder list remains. */
  lemma {:induction false} CollapseLeavesNoList(s: string)
    ensures NoPlaceholderList(CollapsePlaceholders(s))
    decreases |s|
  {
    if s == [] {
    } else if s[0] == '?' && PlaceholderRep(s[1..]) > 0 {
      var t := s[1 + PlaceholderRun(s[1..])..];
      assert t == s[1..][PlaceholderRun(s[1..])..];
      PlaceholderRunIsMaximal(s[1..]);
      CollapseKeepsLeadingRep(t);
      CollapseLeavesNoList(t);
      assert CollapsePlaceholders(s) == "?" + CollapsePlaceholders(t);
      assert ("?" + CollapsePlaceholders(t))[1..] == CollapsePlaceholders(t);
    } else {
      CollapseKeepsLeadingRep(s[1..]);
      CollapseLeavesNoList(s[1..]);
      assert CollapsePlaceholders(s) == [s[0]] + CollapsePlaceholders(s[1..]);
      assert ([s[0]] + CollapsePlaceholders(s[1..]))[1..] == CollapsePlaceholders(s[1..]);
    }
  }

  /** Text without a placeholder list is left unchanged. */
  lemma {:induction false} CollapseFixesListFree(s: string)
    requires NoPlaceholderList(s)
    ensures CollapsePlaceholders(s) == s
    decreases |s|
  {
    if s != [] {
      CollapseFixesListFree(s[1..]);
    }
  }

  /** Collapsing placeholder lists on its own is idempotent. */
  lemma CollapseIdempotent(s: string)
    ensures CollapsePlaceholders(CollapsePlaceholders(s)) == CollapsePlaceholders(s)
  {
    CollapseLeavesNoList(s);
    CollapseFixesListFree(CollapsePlaceholders(s));
  }

  // ---------------------------------------------------------------------------
  // gsub(/\/\*.+?\*\//, "")

  // `s[..n]` matches the comment pattern when `.` is any character but a newline:
  // a slash and a star, at least one non-newline character, a star and a slash.
  predicate IsCommentOf(s: string, n: int) {
    && 5 <= n <= |s|
    && s[0] == '/' && s[1] == '*'
    && s[n - 2] == '*' && s[n - 1] == '/'
    && forall j :: 2 <= j < n - 2 ==> s[j] != '\n'
  }

  // The lazy `.+?` scan: having consumed `s[2..k]`, try the closing star-slash at
  // `k`, otherwise consume one more non-newline character.
  function CloseAt(s: string, k: nat): (n: nat)
    requires 3 <= k <= |s| && s[0] == '/' && s[1] == '*'
    requires forall j :: 2 <= j < k ==> s[j] != '\n'
    ensures n > 0 ==> IsCommentOf(s, n)
    ensures forall m :: k + 2 <= m && IsCommentOf(s, m) ==> 0 < n <= m
    decreases |s| - k
  {
    if k + 2 > |s| then 0
    else if s[k] == '*' && s[k + 1] == '/' then k + 2
    else if s[k] == '\n' then 0
    else CloseAt(s, k + 1)
  }

  /** Length of the comment match at the front of `s`, 0 when none starts there. */
  function CommentLength(s: string): (n: nat)
    ensures n > 0 ==> IsCommentOf(s, n)
    ensures forall m :: IsCommentOf(s, m) ==> 0 < n <= m
  {
    if |s| >= 3 && s[0] == '/' && s[1] == '*' && s[2] != '\n' then CloseAt(s, 3) else 0
  }

  /** `gsub(/\/\*.+?\*\//, "")`: removes every single-line block comment, scanning
      from the left and resuming after each removed match. Only removes: the
      result is a subsequence of the text. */
  function StripComments(s: string): (r: string)
    ensures IsSubseq(r, s)
    decreases |s|
  {
    if s == [] then []
    else
      var n := CommentLength(s);
      if n > 0 then
        var c := StripComments(s[n..]);
        SubseqSuffix(c, s, n);
        c
      else
        var c := StripComments(s[1..]);
        ConsSubseq(s[0], c, s);
        [s[0]] + c
  }

  /** No comment match starts anywhere in `s`. */
  predicate CommentFree(s: string)
    decreases |s|
  {
    s == [] || (CommentLength(s) == 0 && CommentFree(s[1..]))
  }

  /** Text without a comment is left unchanged. */
  lemma {:induction false} StripCommentsFixesCommentFree(s: string)
    requires CommentFree(s)
    ensures StripComments(s) == s
    decreases |s|
  {
    if s != [] {
      StripCommentsFixesCommentFree(s[1..]);
    }
  }

  function CountChar(s: string, c: char): nat
    decreases |s|
  {
    if s == [] then 0 else (if s[0] == c then 1 else 0) + CountChar(s[1..], c)
  }

  lemma {:induction false} CountCharAppend(a: string, b: string, c: char)
    ensures CountChar(a + b, c) == CountChar(a, c) + CountChar(b, c)
    decreases |a|
  {
    if a == [] {
      assert a + b == b;
    } else {
      assert (a + b)[1..] == a[1..] + b;
      CountCharAppend(a[1..], b, c);
    }
  }

  lemma {:induction false} NoNewlineInComment(s: string, n: int)
    requires IsCommentOf(s, n)
    ensures CountChar(s[..n], '\n') == 0
  {
    var p := s[..n];
    assert forall j :: 0 <= j < |p| ==> p[j] != '\n';
    NoNewlineCount(p);
  }

  lemma {:induction false} NoNewlineCount(p: string)
    requires forall j :: 0 <= j < |p| ==> p[j] != '\n'
    ensures CountChar(p, '\n') == 0
    decreases |p|
  {
    if p != [] {
      NoNewlineCount(p[1..]);
    }
  }

  /** Comments never span lines, so removing them keeps every newline. */
  lemma {:induction false} StripCommentsKeepsLines(s: string)
    ensures CountChar(StripComments(s), '\n') == CountChar(s, '\n')
    decreases |s|
  {
    if s != [] {
      var n := CommentLength(s);
      if n > 0 {
        StripCommentsKeepsLines(s[n..]);
        NoNewlineInComment(s, n);
        assert s == s[..n] + s[n..];
        CountCharAppend(s[..n], s[n..], '\n');
      } else {
        StripCommentsKeepsLines(s[1..]);
        assert StripComments(s) == [s[0]] + StripComments(s[1..]);
        CountCharAppend([s[0]], StripComments(s[1..]), '\n');
      }
    }
  }

  // ---------------------------------------------------------------------------
  // normalize_query and explainable?

  /** `normalize_query`: `query.to_s` (nil becomes ""), collapse placeholder lists,
      remove comments, squish. */
  function NormalizeQuery(query: Option<string>): (r: string)
    ensures Squished(r)
    ensures query.None? ==> r == []
  {
    Squish(StripComments(CollapsePlaceholders(query.GetOr(""))))
  }

  /** `normalize_query` is NOT idempotent: removing a comment can bring two
      placeholders next to each other, which a second pass then collapses. */
  lemma NormalizeQueryNotIdempotent()
    ensures NormalizeQuery(Some("?, /* c */?")) == "?, ?"
    ensures NormalizeQuery(Some(NormalizeQuery(Some("?, /* c */?")))) == "?"
  {
    ExampleFirstPass();
    ExampleSecondPass();
  }

  /** `normalize_query` is its three steps in sequence: whatever the collapse
      step yields, comments removed from it, and a text that is already squished
      is the result as it stands. */
  lemma NormalizeQueryOf(x: string, c: string, y: string)
    requires CollapsePlaceholders(x) == c && StripComments(c) == y && Squished(y)
    ensures NormalizeQuery(Some(x)) == y
  {
    SquishFixesSquished(y);
  }

  lemma ExampleFirstPass()
    ensures NormalizeQuery(Some("?, /* c */?")) == "?, ?"
  {
    var x := "?, /* c */?";
    ExampleHasNoList();
    CollapseFixesListFree(x);
    ExampleStrip();
    SquishedExample();
    NormalizeQueryOf(x, x, "?, ?");
  }

  lemma SquishedExample()
    ensures Squished("?, ?")
  {
    var t := "?, ?";
    assert !IsSpace(t[0]) && !IsSpace(t[1]) && !IsSpace(t[3]);
  }

  lemma ExampleSecondPass()
    ensures NormalizeQuery(Some("?, ?")) == "?"
  {
    ExampleCollapse();
    var t := "?";
    assert !IsSpace(t[0]);
    assert Squished(t);
    NormalizeQueryOf("?, ?", CollapsePlaceholders("?, ?"), t);
  }

  lemma ExampleHasNoList()
    ensures NoPlaceholderList("?, /* c */?")
  {
    var x := "?, /* c */?";
    assert NoPlaceholderList(x[10..]);
    assert NoPlaceholderList(x[9..]);
    assert NoPlaceholderList(x[8..]);
    assert NoPlaceholderList(x[7..]);
    assert NoPlaceholderList(x[6..]);
    assert NoPlaceholderList(x[5..]);
    assert NoPlaceholderList(x[4..]);
    assert NoPlaceholderList(x[3..]);
    assert NoPlaceholderList(x[2..]);
    assert PlaceholderRep(x[1..]) == 0;
  }

  lemma ExampleStrip()
    ensures StripComments("?, /* c */?") == "?, ?"
  {
    var x := "?, /* c */?";
    var c := x[3..];
    assert CloseAt(c, 5) == 7;
    assert CloseAt(c, 4) == 7;
    assert CommentLength(c) == 7;
    assert c[7..] == x[10..];
    assert StripComments(x[10..]) == "?";
    assert StripComments(c) == "?";
    assert StripComments(x[2..]) == " ?";
    assert StripComments(x[1..]) == ", ?";
  }

  lemma ExampleCollapse()
    ensures StripComments(CollapsePlaceholders("?, ?")) == "?"
  {
    var y := "?, ?";
    assert PlaceholderRep(y[1..]) == 3;
    assert PlaceholderRun(y[1..]) == 3;
    assert CollapsePlaceholders(y) == "?";
  }

  /** `explainable?`: the text mentions `select` in any case and carries none of
      the placeholder shapes that make it unsafe to run verbatim under EXPLAIN. */
  predicate Explainable(query: string) {
    && ContainsIgnoringCase(query, "select")
    && !Contains(query, "?)")
    && !Contains(query, "= ?")
    && !Contains(query, "$1")
    && !ContainsIgnoringCase(query, "limit ?")
  }

  /** `explainable?` in terms of occurrences: `select` occurs up to case, and none
      of `?)`, `= ?`, `$1` occurs, and `limit ?` does not occur up to case. */
  lemma ExplainableSpec(query: string)
    ensures Explainable(query) <==>
      && Occurs(Fold(query), "select")
      && !Occurs(query, "?)")
      && !Occurs(query, "= ?")
      && !Occurs(query, "$1")
      && !Occurs(Fold(query), "limit ?")
  {
    ContainsIffOccurs(Fold(query), "select");
    ContainsIffOccurs(query, "?)");
    ContainsIffOccurs(query, "= ?");
    ContainsIffOccurs(query, "$1");
    ContainsIffOccurs(Fold(query), "limit ?");
  }
}
