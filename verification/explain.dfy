/** The safety guard of `explain` in lib/pghero.rb: unless the connection refuses
    several statements at once, a statement holding a semicolon before its last
    character, or whose upper-case form holds `COMMIT`, is refused. The result is
    the statement `explain` would run; running it, the transaction and the
    rollback are outside the model. */
module Explain {
  import opened Wrappers
  import opened Text

  const UnsafeStatement := "Unsafe statement"

  /** `sub(/;\z/, "")`: drops one semicolon at the very end. */
  function ChopFinalSemicolon(s: string): (r: string)
    ensures |r| <= |s| && r == s[..|r|]
    ensures |s| - |r| <= 1
    ensures r == s <==> s == [] || s[|s| - 1] != ';'
  {
    if s != [] && s[|s| - 1] == ';' then s[..|s| - 1] else s
  }

  /** The test of line 696, on the squished statement. */
  predicate Unsafe(s: string) {
    Contains(ChopFinalSemicolon(s), ";") || Contains(Upcase(s), "COMMIT")
  }

  /** `explain`: the statement it runs, `EXPLAIN` and the squished SQL, or the
      "Unsafe statement" error. */
  function Explain(sql: string, explainSafe: bool): (r: Result<string, string>)
    ensures r.Success? ==> r.value == "EXPLAIN " + Squish(sql) && Squished(r.value[8..])
    ensures r.Failure? ==> r.error == UnsafeStatement && !explainSafe
    ensures explainSafe ==> r.Success?
  {
    var s := Squish(sql);
    if !explainSafe && Unsafe(s) then Failure(UnsafeStatement) else Success("EXPLAIN " + s)
  }

  /** The refusal, stated by position: without the multi-statement guard of the
      driver, a statement is refused exactly when, once squished, it has a
      semicolon anywhere but at its last character, or its upper-case form holds
      `COMMIT`. */
  lemma ExplainRefuses(sql: string)
    ensures var s := Squish(sql);
      Explain(sql, false).Failure? <==>
        (exists i :: 0 <= i < |s| - 1 && s[i] == ';') || Occurs(Upcase(s), "COMMIT")
  {
    var s := Squish(sql);
    SemicolonBeforeEnd(s);
    ContainsIffOccurs(Upcase(s), "COMMIT");
  }

  /** After `sub(/;\z/, "")`, a semicolon is left exactly when one stood before the
      last character. */
  lemma SemicolonBeforeEnd(s: string)
    ensures Contains(ChopFinalSemicolon(s), ";") <==> exists i :: 0 <= i < |s| - 1 && s[i] == ';'
  {
    var t := ChopFinalSemicolon(s);
    ContainsIffOccurs(t, ";");
    if exists i :: 0 <= i < |s| - 1 && s[i] == ';' {
      var i :| 0 <= i < |s| - 1 && s[i] == ';';
      assert t[i..i + 1] == [';'];
      assert OccursAt(t, ";", i);
    }
    if Occurs(t, ";") {
      var i :| OccursAt(t, ";", i);
      assert t[i] == t[i..i + 1][0] == ';';
      assert s[i] == ';';
      assert i < |s| - 1;
    }
  }

  lemma {:induction false} UpcaseAppend(a: string, b: string)
    ensures Upcase(a + b) == Upcase(a) + Upcase(b)
    decreases |a|
  {
    if a == [] {
      assert a + b == b;
    } else {
      assert (a + b)[0] == a[0];
      assert (a + b)[1..] == a[1..] + b;
      UpcaseAppend(a[1..], b);
    }
  }

  /** A word in the statement shows up upper-cased in its upper-case form. */
  lemma UpcaseKeepsOccurrence(s: string, p: string, i: int)
    requires OccursAt(s, p, i)
    ensures Occurs(Upcase(s), Upcase(p))
  {
    var pre, post := s[..i], s[i + |p|..];
    assert s == pre + p + post;
    UpcaseAppend(pre + p, post);
    UpcaseAppend(pre, p);
    var u, v := Upcase(pre), Upcase(p);
    assert Upcase(s) == u + v + Upcase(post);
    assert Upcase(s)[|u|..|u| + |v|] == v;
    assert OccursAt(Upcase(s), v, |u|);
  }

  /** A `commit` in any mix of cases, anywhere in the statement, including inside
      a comment or a string literal, gets the statement refused. */
  lemma CommitInAnyCaseRefused(sql: string, p: string, i: int)
    requires OccursAt(Squish(sql), p, i) && Upcase(p) == "COMMIT"
    ensures Explain(sql, false) == Failure(UnsafeStatement)
  {
    UpcaseKeepsOccurrence(Squish(sql), p, i);
    ContainsIffOccurs(Upcase(Squish(sql)), "COMMIT");
  }

  lemma DotlessCommitUpcase()
    ensures Upcase("comm\U{0131}t") == "COMMIT"
  {
    assert Upcase("t") == "T";
    assert Upcase("\U{0131}t") == "IT";
    assert Upcase("m\U{0131}t") == "MIT";
    assert Upcase("mm\U{0131}t") == "MMIT";
    assert Upcase("omm\U{0131}t") == "OMMIT";
  }

  /** Ruby's full upper-casing maps the dotless i to I, so a statement holding
      `commıt` is refused too. */
  lemma DotlessCommitRefused(sql: string, i: int)
    requires OccursAt(Squish(sql), "comm\U{0131}t", i)
    ensures Explain(sql, false) == Failure(UnsafeStatement)
  {
    DotlessCommitUpcase();
    CommitInAnyCaseRefused(sql, "comm\U{0131}t", i);
  }
}
