/** Character classes and the string helpers of lib/pghero.rb: ActiveSupport-style
    `squish`, Ruby's `strip`, `include?`, case-insensitive matching, `upcase`,
    and the decimal `Integer#to_s` / `String#to_i` pair. Strings are `seq<char>`
    of Unicode scalar values. */
module Text {

  /** Ruby's `[[:space:]]` on a UTF-8 string: the Unicode White_Space characters. */
  predicate IsSpace(c: char) {
    || c == ' ' || ('\t' <= c <= '\r')
    || c == '\U{0085}' || c == '\U{00A0}' || c == '\U{1680}'
    || ('\U{2000}' <= c <= '\U{200A}')
    || c == '\U{2028}' || c == '\U{2029}' || c == '\U{202F}' || c == '\U{205F}' || c == '\U{3000}'
  }

  /** The ASCII whitespace `String#to_i` skips: space, tab, LF, VT, FF, CR. */
  predicate IsAsciiSpace(c: char) {
    c == ' ' || ('\t' <= c <= '\r')
  }

  /** What `String#strip` removes: ASCII whitespace and NUL. */
  predicate IsStripSpace(c: char) {
    c == '\0' || IsAsciiSpace(c)
  }

  predicate IsDigit(c: char) {
    '0' <= c <= '9'
  }

  // ---------------------------------------------------------------------------
  // Trimming and squish

  /** Drops the longest prefix of characters satisfying `sp`. */
  function TrimStart(s: string, sp: char -> bool): (r: string)
    ensures |r| <= |s| && r == s[|s| - |r|..]
    ensures r == [] || !sp(r[0])
    ensures forall i :: 0 <= i < |s| - |r| ==> sp(s[i])
  {
    if s != [] && sp(s[0]) then TrimStart(s[1..], sp) else s
  }

  /** Drops the longest suffix of characters satisfying `sp`. */
  function TrimEnd(s: string, sp: char -> bool): (r: string)
    ensures |r| <= |s| && r == s[..|r|]
    ensures r == [] || !sp(r[|r| - 1])
    ensures forall i :: |r| <= i < |s| ==> sp(s[i])
  {
    if s != [] && sp(s[|s| - 1]) then TrimEnd(s[..|s| - 1], sp) else s
  }

  /** Everything outside `s[i..j]` is strip-whitespace. */
  predicate StripBounds(s: string, i: int, j: int) {
    && 0 <= i <= j <= |s|
    && (forall k :: 0 <= k < i ==> IsStripSpace(s[k]))
    && (forall k :: j <= k < |s| ==> IsStripSpace(s[k]))
  }

  /** `r` is `s` less a run of strip-whitespace at each end, and does not itself
      begin or end with strip-whitespace. */
  predicate StrippedFrom(r: string, s: string) {
    && (r == [] || (!IsStripSpace(r[0]) && !IsStripSpace(r[|r| - 1])))
    && exists i, j :: 0 <= i <= j <= |s| && StripBounds(s, i, j) && r == s[i..j]
  }

  /** Ruby's `String#strip`. */
  function Strip(s: string): (r: string)
    ensures StrippedFrom(r, s)
  {
    var t := TrimStart(s, IsStripSpace);
    var u := TrimEnd(t, IsStripSpace);
    StripSlice(s, t, u);
    u
  }

  lemma StripSlice(s: string, t: string, u: string)
    requires t == TrimStart(s, IsStripSpace) && u == TrimEnd(t, IsStripSpace)
    ensures StrippedFrom(u, s)
  {
    var i, j := |s| - |t|, |s| - |t| + |u|;
    assert u == s[i..j] by {
      assert t == s[i..];
      assert u == t[..|u|];
    }
    forall k | j <= k < |s| ensures IsStripSpace(s[k]) {
      assert s[k] == t[k - i];
    }
    assert StripBounds(s, i, j);
  }

  /** Only one string is stripped from `s`: `strip` is determined by its contract. */
  lemma StrippedUnique(r1: string, r2: string, s: string)
    requires StrippedFrom(r1, s) && StrippedFrom(r2, s)
    ensures r1 == r2
  {
    var i1, j1 :| 0 <= i1 <= j1 <= |s| && StripBounds(s, i1, j1) && r1 == s[i1..j1];
    var i2, j2 :| 0 <= i2 <= j2 <= |s| && StripBounds(s, i2, j2) && r2 == s[i2..j2];
    if r1 != [] {
      assert s[i1] == r1[0] && s[j1 - 1] == r1[|r1| - 1];
      StrippedBounds(s, i1, j1, i2, j2);
    }
    if r2 != [] {
      assert s[i2] == r2[0] && s[j2 - 1] == r2[|r2| - 1];
      StrippedBounds(s, i2, j2, i1, j1);
    }
    assert |r1| == j1 - i1 && |r2| == j2 - i2;
    if r1 != [] && r2 != [] {
      assert i1 == i2 && j1 == j2;
    }
  }

  /** A non-empty stripped slice `s[i..j]` lies inside any other slice whose
      outside is all strip-whitespace. */
  lemma StrippedBounds(s: string, i: int, j: int, i': int, j': int)
    requires 0 <= i < j <= |s| && !IsStripSpace(s[i]) && !IsStripSpace(s[j - 1])
    requires StripBounds(s, i', j')
    ensures i' <= i && j <= j'
  {
  }

  /** The characters of `s` that are not whitespace, in order. */
  function NonSpace(s: string): string {
    if s == [] then []
    else (if IsSpace(s[0]) then [] else [s[0]]) + NonSpace(s[1..])
  }

  /** `gsub(/[[:space:]]+/, " ")`: every maximal whitespace run becomes one blank. */
  function CollapseSpace(s: string): (r: string)
    decreases |s|
    ensures s == [] <==> r == []
    ensures s != [] ==> (IsSpace(r[0]) <==> IsSpace(s[0]))
    ensures s != [] ==> (IsSpace(r[|r| - 1]) <==> IsSpace(s[|s| - 1]))
    ensures forall i :: 0 <= i < |r| && IsSpace(r[i]) ==> r[i] == ' '
    ensures forall i :: 0 <= i < |r| - 1 ==> !(IsSpace(r[i]) && IsSpace(r[i + 1]))
  {
    if s == [] then []
    else if IsSpace(s[0]) then
      var t := TrimStart(s, IsSpace);
      assert t != [] ==> t[|t| - 1] == s[|s| - 1];
      " " + CollapseSpace(t)
    else
      [s[0]] + CollapseSpace(s[1..])
  }

  /** A squished string: no whitespace at either end, whitespace only as single blanks. */
  predicate Squished(s: string) {
    && (s == [] || (!IsSpace(s[0]) && !IsSpace(s[|s| - 1])))
    && (forall i :: 0 <= i < |s| && IsSpace(s[i]) ==> s[i] == ' ')
    && (forall i :: 0 <= i < |s| - 1 ==> !(IsSpace(s[i]) && IsSpace(s[i + 1])))
  }

  /** ActiveSupport's `squish` as pghero writes it: strip leading whitespace, strip
      trailing whitespace, then collapse each remaining whitespace run to one blank. */
  function Squish(s: string): (r: string)
    ensures Squished(r)
  {
    var t := TrimEnd(TrimStart(s, IsSpace), IsSpace);
    assert t != [] ==> t[0] == TrimStart(s, IsSpace)[0];
    CollapseSpace(t)
  }

  lemma {:induction false} NonSpaceAppend(a: string, b: string)
    ensures NonSpace(a + b) == NonSpace(a) + NonSpace(b)
    decreases |a|
  {
    if a != [] {
      assert (a + b)[1..] == a[1..] + b;
      NonSpaceAppend(a[1..], b);
    } else {
      assert a + b == b;
    }
  }

  lemma {:induction false} NonSpaceOfBlanks(s: string)
    requires forall i :: 0 <= i < |s| ==> IsSpace(s[i])
    ensures NonSpace(s) == []
    decreases |s|
  {
    if s != [] {
      NonSpaceOfBlanks(s[1..]);
    }
  }

  lemma NonSpaceTrimStart(s: string)
    ensures NonSpace(TrimStart(s, IsSpace)) == NonSpace(s)
  {
    var t := TrimStart(s, IsSpace);
    var p := s[..|s| - |t|];
    assert s == p + t;
    NonSpaceOfBlanks(p);
    NonSpaceAppend(p, t);
  }

  lemma NonSpaceTrimEnd(s: string)
    ensures NonSpace(TrimEnd(s, IsSpace)) == NonSpace(s)
  {
    var t := TrimEnd(s, IsSpace);
    var q := s[|t|..];
    assert s == t + q;
    NonSpaceOfBlanks(q);
    NonSpaceAppend(t, q);
  }

  lemma {:induction false} CollapseSpaceKeepsText(s: string)
    ensures NonSpace(CollapseSpace(s)) == NonSpace(s)
    decreases |s|
  {
    if s == [] {
    } else if IsSpace(s[0]) {
      var t := TrimStart(s, IsSpace);
      CollapseSpaceKeepsText(t);
      NonSpaceTrimStart(s);
      assert CollapseSpace(s) == " " + CollapseSpace(t);
      NonSpaceAppend(" ", CollapseSpace(t));
    } else {
      CollapseSpaceKeepsText(s[1..]);
      assert CollapseSpace(s) == [s[0]] + CollapseSpace(s[1..]);
      NonSpaceAppend([s[0]], CollapseSpace(s[1..]));
    }
  }

  /** `squish` only rearranges whitespace: the non-whitespace text is kept, in order. */
  lemma SquishKeepsText(s: string)
    ensures NonSpace(Squish(s)) == NonSpace(s)
  {
    var t1 := TrimStart(s, IsSpace);
    var t2 := TrimEnd(t1, IsSpace);
    NonSpaceTrimStart(s);
    NonSpaceTrimEnd(t1);
    CollapseSpaceKeepsText(t2);
  }

  lemma {:induction false} CollapseSpaceFixes(s: string)
    requires forall i :: 0 <= i < |s| && IsSpace(s[i]) ==> s[i] == ' '
    requires forall i :: 0 <= i < |s| - 1 ==> !(IsSpace(s[i]) && IsSpace(s[i + 1]))
    ensures CollapseSpace(s) == s
    decreases |s|
  {
    if s != [] {
      CollapseSpaceFixes(s[1..]);
      if IsSpace(s[0]) {
        assert TrimStart(s, IsSpace) == s[1..] by {
          assert TrimStart(s, IsSpace) == TrimStart(s[1..], IsSpace);
        }
      }
    }
  }

  /** A squished string is left unchanged by `squish`. */
  lemma SquishFixesSquished(s: string)
    requires Squished(s)
    ensures Squish(s) == s
  {
    assert TrimStart(s, IsSpace) == s;
    assert TrimEnd(s, IsSpace) == s;
    CollapseSpaceFixes(s);
  }

  /** `squish` is idempotent. */
  lemma SquishIdempotent(s: string)
    ensures Squish(Squish(s)) == Squish(s)
  {
    SquishFixesSquished(Squish(s));
  }

  // ---------------------------------------------------------------------------
  // Words: the independent reading of squish

  /** The longest prefix of `s` without whitespace. */
  function LeadingWord(s: string): (w: string)
    ensures |w| <= |s| && w == s[..|w|]
    ensures forall i :: 0 <= i < |w| ==> !IsSpace(w[i])
    ensures |w| == |s| || IsSpace(s[|w|])
    decreases |s|
  {
    if s == [] || IsSpace(s[0]) then []
    else
      var w := LeadingWord(s[1..]);
      assert s[..1 + |w|] == [s[0]] + s[1..][..|w|];
      [s[0]] + w
  }

  /** The words of `s`: its maximal runs of non-whitespace characters, in order. */
  function Words(s: string): (ws: seq<string>)
    ensures forall k :: 0 <= k < |ws| ==> ws[k] != [] && forall i :: 0 <= i < |ws[k]| ==> !IsSpace(ws[k][i])
    decreases |s|
  {
    if s == [] then []
    else if IsSpace(s[0]) then Words(s[1..])
    else
      var w := LeadingWord(s);
      [w] + Words(s[|w|..])
  }

  /** The words joined by single blanks. */
  function Unwords(ws: seq<string>): string
    decreases |ws|
  {
    if ws == [] then [] else if |ws| == 1 then ws[0] else ws[0] + " " + Unwords(ws[1..])
  }

  /** The collapse copies a word through unchanged. */
  lemma {:induction false} CollapseWord(w: string, rest: string)
    requires forall i :: 0 <= i < |w| ==> !IsSpace(w[i])
    ensures CollapseSpace(w + rest) == w + CollapseSpace(rest)
    decreases |w|
  {
    if w == [] {
      assert w + rest == rest;
    } else {
      var x := w + rest;
      assert x[0] == w[0];
      assert x[1..] == w[1..] + rest;
      CollapseHead(x);
      CollapseWord(w[1..], rest);
      calc {
        CollapseSpace(x);
        [w[0]] + CollapseSpace(w[1..] + rest);
        [w[0]] + (w[1..] + CollapseSpace(rest));
        { ConsAssoc(w[0], w[1..], CollapseSpace(rest)); }
        ([w[0]] + w[1..]) + CollapseSpace(rest);
        { assert [w[0]] + w[1..] == w; }
        w + CollapseSpace(rest);
      }
    }
  }

  lemma ConsAssoc(c: char, a: string, b: string)
    ensures [c] + (a + b) == ([c] + a) + b
  {
  }

  lemma CollapseHead(x: string)
    requires x != [] && !IsSpace(x[0])
    ensures CollapseSpace(x) == [x[0]] + CollapseSpace(x[1..])
  {
  }

  /** Leading whitespace separates no words. */
  lemma {:induction false} WordsSkipSpace(s: string)
    ensures Words(TrimStart(s, IsSpace)) == Words(s)
    decreases |s|
  {
    if s != [] && IsSpace(s[0]) {
      WordsSkipSpace(s[1..]);
    }
  }

  lemma {:induction false} LeadingWordAppend(t: string, q: string)
    requires q == [] || IsSpace(q[0])
    ensures LeadingWord(t + q) == LeadingWord(t)
    decreases |t|
  {
    if t == [] {
      assert t + q == q;
    } else {
      assert (t + q)[0] == t[0];
      assert (t + q)[1..] == t[1..] + q;
      LeadingWordAppend(t[1..], q);
    }
  }

  /** Trailing whitespace separates no words. */
  lemma {:induction false} WordsAppendSpace(t: string, q: string)
    requires forall i :: 0 <= i < |q| ==> IsSpace(q[i])
    ensures Words(t + q) == Words(t)
    decreases |t| + |q|
  {
    if t == [] {
      assert t + q == q;
      if q != [] {
        WordsAppendSpace(t, q[1..]);
        assert (t + q)[1..] == t + q[1..];
      }
    } else if IsSpace(t[0]) {
      assert (t + q)[1..] == t[1..] + q;
      WordsAppendSpace(t[1..], q);
    } else {
      var w := LeadingWord(t);
      LeadingWordAppend(t, q);
      assert (t + q)[|w|..] == t[|w|..] + q;
      WordsAppendSpace(t[|w|..], q);
    }
  }

  /** On a string with no whitespace at either end, the collapse joins its words
      by single blanks: every whitespace run between two words becomes one blank. */
  lemma {:induction false} CollapseSpaceJoinsWords(s: string)
    requires s == [] || (!IsSpace(s[0]) && !IsSpace(s[|s| - 1]))
    ensures CollapseSpace(s) == Unwords(Words(s))
    decreases |s|
  {
    if s != [] {
      var w := LeadingWord(s);
      var rest := s[|w|..];
      assert s == w + rest;
      CollapseWord(w, rest);
      assert Words(s) == [w] + Words(rest);
      if rest == [] {
        assert w + rest == w;
        assert Words(s) == [w];
      } else {
        var t := TrimStart(rest, IsSpace);
        InteriorGap(rest);
        CollapseSpaceJoinsWords(t);
        WordsSkipSpace(rest);
        JoinFront(w, t);
        calc {
          CollapseSpace(s);
          w + CollapseSpace(rest);
          w + (" " + CollapseSpace(t));
          w + (" " + Unwords(Words(t)));
          Unwords([w] + Words(rest));
        }
      }
    }
  }

  lemma JoinFront(w: string, t: string)
    requires t != [] && !IsSpace(t[0])
    ensures Unwords([w] + Words(t)) == w + (" " + Unwords(Words(t)))
  {
    assert Words(t) != [];
    assert ([w] + Words(t))[1..] == Words(t);
    assert w + " " + Unwords(Words(t)) == w + (" " + Unwords(Words(t)));
  }

  /** A whitespace gap that ends before the last character collapses to one
      blank in front of the rest. */
  lemma InteriorGap(x: string)
    requires x != [] && IsSpace(x[0]) && !IsSpace(x[|x| - 1])
    ensures var t := TrimStart(x, IsSpace);
      && t != [] && !IsSpace(t[0]) && !IsSpace(t[|t| - 1]) && |t| < |x|
      && CollapseSpace(x) == " " + CollapseSpace(t)
  {
    var t := TrimStart(x, IsSpace);
    assert t != [] && t[|t| - 1] == x[|x| - 1];
  }

  /** `squish` is the words of its input joined by single blanks. */
  lemma SquishJoinsWords(s: string)
    ensures Squish(s) == Unwords(Words(s))
  {
    var t := TrimEnd(TrimStart(s, IsSpace), IsSpace);
    TrimmedEnds(s);
    CollapseSpaceJoinsWords(t);
    WordsOfTrimmed(s);
  }

  lemma TrimmedEnds(s: string)
    ensures var t := TrimEnd(TrimStart(s, IsSpace), IsSpace);
      t == [] || (!IsSpace(t[0]) && !IsSpace(t[|t| - 1]))
  {
    var t1 := TrimStart(s, IsSpace);
    var t := TrimEnd(t1, IsSpace);
    assert t != [] ==> t[0] == t1[0];
  }

  /** Whitespace at either end separates no words. */
  lemma WordsOfTrimmed(s: string)
    ensures Words(TrimEnd(TrimStart(s, IsSpace), IsSpace)) == Words(s)
  {
    var t1 := TrimStart(s, IsSpace);
    var t2 := TrimEnd(t1, IsSpace);
    var q := t1[|t2|..];
    assert t1 == t2 + q;
    forall i | 0 <= i < |q| ensures IsSpace(q[i]) {
      assert q[i] == t1[|t2| + i];
    }
    WordsAppendSpace(t2, q);
    WordsSkipSpace(s);
  }

  // ---------------------------------------------------------------------------
  // Substring search and case

  predicate StartsWith(s: string, p: string) {
    |p| <= |s| && s[..|p|] == p
  }

  /** Ruby's `String#include?`, by a left-to-right scan. */
  predicate Contains(s: string, p: string)
    decreases |s|
  {
    if StartsWith(s, p) then true
    else if s == [] then false
    else Contains(s[1..], p)
  }

  /** `p` occurs in `s` starting at index `i`. */
  predicate OccursAt(s: string, p: string, i: int) {
    0 <= i <= |s| - |p| && s[i..i + |p|] == p
  }

  /** `p` occurs in `s` at some position. */
  ghost predicate Occurs(s: string, p: string) {
    exists i :: OccursAt(s, p, i)
  }

  /** The scan finds `p` exactly when `p` occurs somewhere in `s`. */
  lemma {:induction false} ContainsIffOccurs(s: string, p: string)
    ensures Contains(s, p) <==> Occurs(s, p)
    decreases |s|
  {
    if StartsWith(s, p) {
      assert OccursAt(s, p, 0);
    } else if s == [] {
    } else {
      ContainsIffOccurs(s[1..], p);
      if Contains(s[1..], p) {
        var j :| OccursAt(s[1..], p, j);
        SliceOfTail(s, j, |p|);
        assert OccursAt(s, p, j + 1);
      }
      if Occurs(s, p) {
        var i :| OccursAt(s, p, i);
        assert i != 0;
        SliceOfTail(s, i - 1, |p|);
        assert OccursAt(s[1..], p, i - 1);
      }
    }
  }

  lemma SliceOfTail(s: string, j: int, n: int)
    requires 0 <= j && 0 <= n && 1 + j + n <= |s|
    ensures s[1..][j..j + n] == s[j + 1..j + 1 + n]
  {
    var a, b := s[1..][j..j + n], s[j + 1..j + 1 + n];
    assert |a| == |b|;
    forall k | 0 <= k < n ensures a[k] == b[k] {
      assert a[k] == s[1..][j + k] == s[j + 1 + k];
    }
  }

  /** Simple case folding as Ruby's `/…/i` applies it: ASCII letters, plus the long s
      (U+017F) and the Kelvin sign (U+212A), whose folds are ASCII letters. */
  function FoldChar(c: char): char {
    if 'A' <= c <= 'Z' then (c as int + 32) as char
    else if c == '\U{017F}' then 's'
    else if c == '\U{212A}' then 'k'
    else c
  }

  predicate IsAsciiUpper(c: char) {
    'A' <= c <= 'Z'
  }

  /** Folding character by character leaves no ASCII upper-case letter. */
  function Fold(s: string): (r: string)
    ensures |r| == |s|
    ensures forall i :: 0 <= i < |s| ==> r[i] == FoldChar(s[i])
    ensures forall i :: 0 <= i < |r| ==> !IsAsciiUpper(r[i])
  {
    seq(|s|, i requires 0 <= i < |s| => FoldChar(s[i]))
  }

  /** Folding a folded string changes nothing. */
  lemma FoldIdempotent(s: string)
    ensures Fold(Fold(s)) == Fold(s)
  {
    var f := Fold(s);
    forall i | 0 <= i < |f| ensures FoldChar(f[i]) == f[i] {
      assert !IsAsciiUpper(f[i]);
    }
  }

  /** `s =~ /p/i` for a pattern `p` written in lower-case ASCII letters and punctuation. */
  predicate ContainsIgnoringCase(s: string, p: string) {
    Contains(Fold(s), p)
  }

  /** `p` matches `s` at `i` once each character of `s` is folded. */
  predicate MatchesFoldedAt(s: string, p: string, i: int) {
    0 <= i <= |s| - |p| && forall k :: 0 <= k < |p| ==> FoldChar(s[i + k]) == p[k]
  }

  /** The case-insensitive match succeeds exactly when, at some position, every
      character of the pattern equals the folded character of `s` there. */
  lemma ContainsIgnoringCaseIff(s: string, p: string)
    ensures ContainsIgnoringCase(s, p) <==> exists i :: MatchesFoldedAt(s, p, i)
  {
    var f := Fold(s);
    ContainsIffOccurs(f, p);
    forall i | 0 <= i <= |s| - |p| ensures OccursAt(f, p, i) <==> MatchesFoldedAt(s, p, i) {
      if MatchesFoldedAt(s, p, i) {
        assert f[i..i + |p|] == p by {
          forall k | 0 <= k < |p| ensures f[i..i + |p|][k] == p[k] {
            assert f[i + k] == FoldChar(s[i + k]);
          }
        }
      }
      if OccursAt(f, p, i) {
        forall k | 0 <= k < |p| ensures FoldChar(s[i + k]) == p[k] {
          assert f[i..i + |p|][k] == f[i + k];
        }
      }
    }
    if exists i :: MatchesFoldedAt(s, p, i) {
      var i :| MatchesFoldedAt(s, p, i);
      assert OccursAt(f, p, i);
    }
    if Occurs(f, p) {
      var i :| OccursAt(f, p, i);
      assert MatchesFoldedAt(s, p, i);
    }
  }

  /** Ruby's full upper-case mapping, for the characters whose upper-case form
      contains an ASCII letter: a–z, dotless i (U+0131) and t with diaeresis
      (U+1E97, which upper-cases to T followed by a combining diaeresis). Every
      other character is kept. */
  function UpcaseChar(c: char): string {
    if 'a' <= c <= 'z' then [(c as int - 32) as char]
    else if c == '\U{0131}' then "I"
    else if c == '\U{1E97}' then "T\U{0308}"
    else [c]
  }

  /** Ruby's `String#upcase` (see `UpcaseChar`). */
  function Upcase(s: string): string {
    if s == [] then [] else UpcaseChar(s[0]) + Upcase(s[1..])
  }

  // ---------------------------------------------------------------------------
  // Decimal integers

  function DigitChar(d: nat): (c: char)
    requires d < 10
    ensures IsDigit(c)
  {
    ('0' as int + d) as char
  }

  function DigitValue(c: char): nat
    requires IsDigit(c)
  {
    c as int - '0' as int
  }

  /** Decimal digits of `n`, most significant first, no leading zeros. */
  function NatToString(n: nat): (r: string)
    ensures |r| > 0 && forall i :: 0 <= i < |r| ==> IsDigit(r[i])
    ensures r[0] == '0' <==> n == 0
    decreases n
  {
    if n < 10 then [DigitChar(n)] else NatToString(n / 10) + [DigitChar(n % 10)]
  }

  /** Ruby's `Integer#to_s`, which string interpolation uses. */
  function IntToString(n: int): string {
    if n < 0 then "-" + NatToString(-n) else NatToString(n)
  }

  /** The value of a string of decimal digits. */
  function DecimalValue(ds: string): nat
    requires forall i :: 0 <= i < |ds| ==> IsDigit(ds[i])
  {
    if ds == [] then 0 else 10 * DecimalValue(ds[..|ds| - 1]) + DigitValue(ds[|ds| - 1])
  }

  /** The digits `String#to_i` reads from the front of `s`: a run of decimal digits
      in which a single underscore may stand between two digits. */
  function DigitRun(s: string): (r: string)
    ensures forall i :: 0 <= i < |r| ==> IsDigit(r[i])
  {
    if s == [] || !IsDigit(s[0]) then []
    else if |s| >= 3 && s[1] == '_' && IsDigit(s[2]) then [s[0]] + DigitRun(s[2..])
    else [s[0]] + DigitRun(s[1..])
  }

  /** Base 10 admits a `0d` or `0D` prefix before the digits. */
  predicate HasDecimalPrefix(u: string) {
    |u| >= 2 && u[0] == '0' && (u[1] == 'd' || u[1] == 'D')
  }

  /** The digits read after the sign: past a `0d` prefix if there is one. */
  function DecimalDigits(u: string): (r: string)
    ensures forall i :: 0 <= i < |r| ==> IsDigit(r[i])
  {
    if HasDecimalPrefix(u) then DigitRun(u[2..]) else DigitRun(u)
  }

  /** Ruby's `String#to_i` in base 10: leading ASCII whitespace, an optional sign,
      an optional `0d` prefix, then the digit run; 0 when no digit follows. */
  function ToI(s: string): int {
    var t := TrimStart(s, IsAsciiSpace);
    if t != [] && t[0] == '-' then -(DecimalValue(DecimalDigits(t[1..])) as int)
    else if t != [] && t[0] == '+' then DecimalValue(DecimalDigits(t[1..]))
    else DecimalValue(DecimalDigits(t))
  }

  lemma {:induction false} DecimalValueOfNat(n: nat)
    ensures DecimalValue(NatToString(n)) == n
    decreases n
  {
    if n >= 10 {
      var r := NatToString(n);
      assert r[..|r| - 1] == NatToString(n / 10);
      DecimalValueOfNat(n / 10);
    }
  }

  /** The digit run of a digit string followed by a character that is neither a
      digit nor an underscore is the digit string itself. */
  lemma {:induction false} DigitRunStops(ds: string, rest: string)
    requires forall i :: 0 <= i < |ds| ==> IsDigit(ds[i])
    requires rest == [] || (!IsDigit(rest[0]) && rest[0] != '_')
    ensures DigitRun(ds + rest) == ds
    decreases |ds|
  {
    if ds != [] {
      assert (ds + rest)[1..] == ds[1..] + rest;
      DigitRunStops(ds[1..], rest);
    } else {
      assert ds + rest == rest;
    }
  }

  /** Reading back a printed integer, followed by any text that does not continue
      the number, gives the integer: `"#{n}#{rest}".to_i == n`. After a printed
      0, a `d` or `D` would be read as the `0d` prefix. */
  lemma IntToStringRoundTrip(n: int, rest: string)
    requires rest == [] || (!IsDigit(rest[0]) && rest[0] != '_')
    requires n == 0 && rest != [] ==> rest[0] != 'd' && rest[0] != 'D'
    ensures ToI(IntToString(n) + rest) == n
  {
    if n < 0 {
      var ds := NatToString(-n);
      DigitRunStops(ds, rest);
      DecimalValueOfNat(-n);
      var s := "-" + (ds + rest);
      assert IntToString(n) + rest == s;
      assert s[1..] == ds + rest;
      assert (ds + rest)[0] == ds[0] != '0';
      ToINegative(s);
    } else {
      var ds := NatToString(n);
      DigitRunStops(ds, rest);
      DecimalValueOfNat(n);
      assert IntToString(n) + rest == ds + rest;
      NoDecimalPrefix(n, rest);
      ToIUnsigned(ds + rest);
    }
  }

  /** A printed natural number followed by `rest` never starts with `0d`. */
  lemma NoDecimalPrefix(n: nat, rest: string)
    requires n == 0 && rest != [] ==> rest[0] != 'd' && rest[0] != 'D'
    ensures (NatToString(n) + rest)[0] == NatToString(n)[0]
    ensures !HasDecimalPrefix(NatToString(n) + rest)
  {
    var ds := NatToString(n);
    if n == 0 {
      assert ds == "0";
      assert |ds + rest| >= 2 ==> (ds + rest)[1] == rest[0];
    }
  }

  lemma ToIUnsigned(s: string)
    requires s != [] && IsDigit(s[0]) && !HasDecimalPrefix(s)
    ensures ToI(s) == DecimalValue(DigitRun(s)) as int
  {
    assert !IsAsciiSpace(s[0]) && s[0] != '-' && s[0] != '+';
    assert TrimStart(s, IsAsciiSpace) == s;
    assert DecimalDigits(s) == DigitRun(s);
  }

  lemma ToINegative(s: string)
    requires s != [] && s[0] == '-' && !HasDecimalPrefix(s[1..])
    ensures ToI(s) == -(DecimalValue(DigitRun(s[1..])) as int)
  {
    assert TrimStart(s, IsAsciiSpace) == s;
    assert DecimalDigits(s[1..]) == DigitRun(s[1..]);
  }
}
