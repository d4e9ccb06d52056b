/**
 * The quoted reply chain appended to outgoing mail: HTML-to-text stripping,
 * the Gmail-style date line, the newest-first selection of messages, and the
 * text and HTML chains built from them. The local-time breakdown of a
 * timestamp (`getDay`, `getMonth`, ... on a `Date`) is the parameter `local`.
 */
module ReplyChain {
  import opened Wrappers
  import opened Text
  import opened Seqs
  import opened CrmTypes

  // ---------------------------------------------------------------------
  // stripHtml
  // ---------------------------------------------------------------------

  /** The length of the run of `\s` characters at the front of `s` */
  function SpaceRun(s: string): (n: nat)
    ensures n <= |s|
    ensures forall i :: 0 <= i < n ==> IsSpace(s[i])
    ensures n < |s| ==> !IsSpace(s[n])
  {
    if s != [] && IsSpace(s[0]) then 1 + SpaceRun(s[1..]) else 0
  }

  /** The length of the match of `/<br\s*\/?>/i` at the front of `s`, if there is one.
      `\s`, `/` and `>` are disjoint, so the greedy `\s*` never has to give anything back */
  function BrAt(s: string): (r: Option<nat>)
    ensures r.Some? ==> 4 <= r.value <= |s|
  {
    if !LiteralAt(s, "<br", true) then None
    else
      var k := 3 + SpaceRun(s[3..]);
      var k' := if k < |s| && s[k] == '/' then k + 1 else k;
      if k' < |s| && s[k'] == '>' then Some(k' + 1) else None
  }

  /** `s.replace(/<br\s*\/?>/gi, '\n')` */
  function ReplaceBr(s: string): string
    decreases |s|
  {
    if s == [] then []
    else
      match BrAt(s)
      case Some(n) => "\n" + ReplaceBr(s[n..])
      case None => [s[0]] + ReplaceBr(s[1..])
  }

  /** The tags that stand for a line break: `</p>` and `</div>` in any case */
  const ParagraphClose := "</p>"
  const DivisionClose := "</div>"

  /** The first three rewrites: line-break tags become newlines */
  function BreaksToNewlines(s: string): string {
    ReplaceAll(ReplaceAll(ReplaceBr(s), ParagraphClose, "\n", true), DivisionClose, "\n", true)
  }

  /** The five entity decodings, in the order they are applied */
  function DecodeEntities(s: string): string {
    var t1 := ReplaceAll(s, "&nbsp;", " ", false);
    var t2 := ReplaceAll(t1, "&amp;", "&", false);
    var t3 := ReplaceAll(t2, "&lt;", "<", false);
    var t4 := ReplaceAll(t3, "&gt;", ">", false);
    ReplaceAll(t4, "&quot;", "\"", false)
  }

  /** The length of the run of newlines at the front of `s` */
  function NewlineRun(s: string): (n: nat)
    ensures n <= |s|
    ensures forall i :: 0 <= i < n ==> s[i] == '\n'
    ensures n < |s| ==> s[n] != '\n'
  {
    if s != [] && s[0] == '\n' then 1 + NewlineRun(s[1..]) else 0
  }

  /** `s.replace(/\n{3,}/g, '\n\n')`: every run of three or more newlines becomes two */
  function CollapseNewlines(s: string): string
    decreases |s|
  {
    if s == [] then []
    else if NewlineRun(s) >= 3 then "\n\n" + CollapseNewlines(s[NewlineRun(s)..])
    else [s[0]] + CollapseNewlines(s[1..])
  }

  /** No three newlines in a row */
  predicate NoTripleNewline(s: string) {
    forall i :: 0 <= i < |s| - 2 ==> !(s[i] == '\n' && s[i + 1] == '\n' && s[i + 2] == '\n')
  }

  /** `stripHtml` */
  function StripHtml(html: string): string {
    Trim(CollapseNewlines(DecodeEntities(ReplaceTags(BreaksToNewlines(html), ""))))
  }

  /** The stripped text is trimmed and never holds three newlines in a row */
  lemma StripHtmlIsClean(html: string)
    ensures var r := StripHtml(html);
      && (r != [] ==> !IsSpace(r[0]) && !IsSpace(r[|r| - 1]))
      && NoTripleNewline(r)
  {
    var text := DecodeEntities(ReplaceTags(BreaksToNewlines(html), ""));
    var c := CollapseNewlines(text);
    CollapseNoTriple(text);
    var a := TrimShape(c);
    NoTripleSlice(c, a, a + |Trim(c)|);
  }

  /** Collapsing keeps the first character */
  lemma {:induction false} CollapseHead(s: string)
    ensures CollapseNewlines(s) == [] <==> s == []
    ensures s != [] ==> CollapseNewlines(s)[0] == s[0]
  {
  }

  /** After collapsing, no run of three newlines is left */
  lemma {:induction false} CollapseNoTriple(s: string)
    ensures NoTripleNewline(CollapseNewlines(s))
    decreases |s|
  {
    if s != [] {
      var n := NewlineRun(s);
      if n >= 3 {
        var rest := s[n..];
        CollapseNoTriple(rest);
        CollapseHead(rest);
        var c := CollapseNewlines(rest);
        var r := "\n\n" + c;
        forall i | 0 <= i < |r| - 2
          ensures !(r[i] == '\n' && r[i + 1] == '\n' && r[i + 2] == '\n')
        {
          if i == 0 {
            assert r[2] == c[0] == rest[0] == s[n];
          } else if i >= 2 {
            assert r[i] == c[i - 2] && r[i + 1] == c[i - 1] && r[i + 2] == c[i];
          } else {
            assert r[i + 1] == c[0] == s[n];
          }
        }
      } else {
        var c := CollapseNewlines(s[1..]);
        CollapseNoTriple(s[1..]);
        var r := [s[0]] + c;
        forall i | 0 <= i < |r| - 2
          ensures !(r[i] == '\n' && r[i + 1] == '\n' && r[i + 2] == '\n')
        {
          if i == 0 && s[0] == '\n' && c[0] == '\n' && c[1] == '\n' {
            CollapseHead(s[1..]);
            assert s[1] == '\n';
            var t := s[1..];
            assert NewlineRun(t) < 2;
            assert c == [t[0]] + CollapseNewlines(t[1..]);
            CollapseHead(t[1..]);
          } else if i > 0 {
            assert r[i] == c[i - 1] && r[i + 1] == c[i] && r[i + 2] == c[i + 1];
          }
        }
      }
    }
  }

  /** A string with no run of three newlines collapses to itself */
  lemma {:induction false} CollapseNoTripleIdentity(s: string)
    requires NoTripleNewline(s)
    ensures CollapseNewlines(s) == s
    decreases |s|
  {
    if s != [] {
      NoTripleSlice(s, 1, |s|);
      CollapseNoTripleIdentity(s[1..]);
    }
  }

  lemma NoTripleSlice(s: string, a: nat, b: nat)
    requires NoTripleNewline(s) && a <= b <= |s|
    ensures NoTripleNewline(s[a..b])
  {
    forall i | 0 <= i < b - a - 2
      ensures !(s[a..b][i] == '\n' && s[a..b][i + 1] == '\n' && s[a..b][i + 2] == '\n')
    {
      assert s[a..b][i] == s[a + i] && s[a..b][i + 1] == s[a + i + 1] && s[a..b][i + 2] == s[a + i + 2];
    }
  }

  /** `tag` is matched as a whole by `/<br\s*\/?>/i`: `<br` in any case, whitespace, an
      optional `/`, then `>` */
  predicate IsBrTag(tag: string) {
    && |tag| >= 4 && Lower(tag[..3]) == "<br" && tag[|tag| - 1] == '>'
    && var mid := tag[3..|tag| - 1];
       || (forall i :: 0 <= i < |mid| ==> IsSpace(mid[i]))
       || (mid != [] && mid[|mid| - 1] == '/' && forall i :: 0 <= i < |mid| - 1 ==> IsSpace(mid[i]))
  }

  /** `<br` is in lower case already */
  lemma BrOpenLower()
    ensures Lower("<br") == "<br"
  {
    var l := Lower("<br");
    assert l[0] == '<' && l[1] == 'b' && l[2] == 'r';
  }

  /** A match that `BrAt` reports is a `<br>` form */
  lemma BrAtSound(s: string, n: nat)
    requires 4 <= n <= |s| && BrAt(s) == Some(n)
    ensures IsBrTag(s[..n])
  {
    BrOpenLower();
    var tag := s[..n];
    assert s[..3] == tag[..3];
    var k := 3 + SpaceRun(s[3..]);
    forall i | 3 <= i < k
      ensures IsSpace(s[i])
    {
      assert s[3..][i - 3] == s[i];
    }
    assert tag[3..n - 1] == s[3..n - 1];
  }

  /** Between `<br` and `>` a `<br>` form holds whitespace, then at most one `/` */
  lemma BrTagMiddle(tag: string)
    requires IsBrTag(tag)
    ensures var mid := tag[3..|tag| - 1];
            var m := if mid != [] && mid[|mid| - 1] == '/' then |mid| - 1 else |mid|;
            (forall i :: 0 <= i < m ==> IsSpace(mid[i])) && (m == |mid| || mid[m] == '/')
  {
    var mid := tag[3..|tag| - 1];
    if mid != [] && mid[|mid| - 1] == '/' {
      assert !IsSpace(mid[|mid| - 1]);
    }
  }

  /** A `<br>` form at the front is the match `BrAt` reports */
  lemma BrAtComplete(s: string, n: nat)
    requires 4 <= n <= |s| && IsBrTag(s[..n])
    ensures BrAt(s) == Some(n)
  {
    BrOpenLower();
    var tag := s[..n];
    assert s[..3] == tag[..3];
    var mid := tag[3..n - 1];
    var m := if mid != [] && mid[|mid| - 1] == '/' then |mid| - 1 else |mid|;
    BrTagMiddle(tag);
    forall i | 0 <= i < m
      ensures IsSpace(s[3..][i])
    {
      assert s[3..][i] == mid[i];
    }
    assert m < |s[3..]| && !IsSpace(s[3..][m]) by {
      assert s[3..][m] == s[3 + m];
      assert s[3 + m] == '/' || s[3 + m] == '>';
    }
    SpaceRunExact(s[3..], m);
  }

  /** `BrAt` finds exactly the `<br>` forms, and the match it reports is the whole tag */
  lemma BrAtIff(s: string, n: nat)
    requires 4 <= n <= |s|
    ensures BrAt(s) == Some(n) <==> IsBrTag(s[..n])
  {
    if BrAt(s) == Some(n) {
      BrAtSound(s, n);
    }
    if IsBrTag(s[..n]) {
      BrAtComplete(s, n);
    }
  }

  /** A run of `m` spaces followed by a non-space has length `m` */
  lemma {:induction false} SpaceRunExact(s: string, m: nat)
    requires m < |s| && !IsSpace(s[m])
    requires forall i :: 0 <= i < m ==> IsSpace(s[i])
    ensures SpaceRun(s) == m
  {
    if m > 0 {
      assert forall i :: 0 <= i < m - 1 ==> s[1..][i] == s[i + 1];
      SpaceRunExact(s[1..], m - 1);
    }
  }

  /** A `<br>` match starts with `<` */
  lemma BrAtNeedsOpen(s: string)
    requires s != [] && s[0] != '<'
    ensures BrAt(s) == None
  {
  }

  /** A character other than `<` is kept by the `<br>` rewrite */
  lemma ReplaceBrKeeps(c: char, t: string)
    requires c != '<'
    ensures ReplaceBr([c] + t) == [c] + ReplaceBr(t)
  {
    BrAtNeedsOpen([c] + t);
    assert ([c] + t)[1..] == t;
  }

  /** A prefix without `<` passes through the `<br>` rewrite unchanged */
  lemma {:induction false} ReplaceBrPass(a: string, t: string)
    requires '<' !in a
    ensures ReplaceBr(a + t) == a + ReplaceBr(t)
    decreases |a|
  {
    if a != [] {
      var c, a' := a[0], a[1..];
      assert a + t == [c] + (a' + t);
      ReplaceBrKeeps(c, a' + t);
      ReplaceBrPass(a', t);
      assert a == [c] + a';
    } else {
      assert a + t == t;
    }
  }

  /** A prefix without `<` passes through the three line-break rewrites unchanged */
  lemma BreaksPass(a: string, t: string)
    requires '<' !in a
    ensures BreaksToNewlines(a + t) == a + BreaksToNewlines(t)
  {
    ReplaceBrPass(a, t);
    ReplaceAllPass(a, ReplaceBr(t), ParagraphClose, "\n", true);
    ReplaceAllPass(a, ReplaceAll(ReplaceBr(t), ParagraphClose, "\n", true), DivisionClose, "\n", true);
  }

  /** Text without `<` has no line-break tag */
  lemma BreaksNoOpen(s: string)
    requires '<' !in s
    ensures BreaksToNewlines(s) == s
  {
    BreaksPass(s, []);
    assert s + [] == s;
  }

  /** The tags `stripHtml` turns into a line break */
  predicate IsBreakTag(tag: string) {
    IsBrTag(tag) || Lower(tag) == ParagraphClose || Lower(tag) == DivisionClose
  }

  /** Lowercasing gives `<` back only for `<` */
  lemma LowerCharLt(c: char)
    ensures LowerChar(c) == '<' <==> c == '<'
  {
  }

  /** The two closing tags are in lower case already */
  lemma ClosingTagsLower()
    ensures Lower(ParagraphClose) == ParagraphClose && Lower(DivisionClose) == DivisionClose
  {
    assert Lower(ParagraphClose) == ParagraphClose by {
      forall k | 0 <= k < 4 ensures Lower(ParagraphClose)[k] == ParagraphClose[k] {}
    }
    assert Lower(DivisionClose) == DivisionClose by {
      forall k | 0 <= k < 6 ensures Lower(DivisionClose)[k] == DivisionClose[k] {}
    }
  }

  /** The closing tags start with `<` and hold no other */
  lemma ClosingTagsOpenOnce(pat: string)
    requires pat == ParagraphClose || pat == DivisionClose
    ensures pat != [] && pat[0] == '<'
    ensures forall k :: 1 <= k < |pat| ==> pat[k] != '<'
  {
  }

  /** `</p>` and `</div>` hold `<` only at the front */
  lemma CloseTagTail(tag: string)
    requires Lower(tag) == ParagraphClose || Lower(tag) == DivisionClose
    ensures tag != [] && tag[0] == '<' && '<' !in tag[1..]
  {
    var pat := Lower(tag);
    ClosingTagsOpenOnce(pat);
    assert pat[0] == LowerChar(tag[0]);
    LowerCharLt(tag[0]);
    forall k | 1 <= k < |tag|
      ensures tag[k] != '<'
    {
      assert pat[k] == LowerChar(tag[k]);
      LowerCharLt(tag[k]);
    }
    TailWithoutOpen(tag);
  }

  /** A text whose characters after the first are not `<` has no `<` in its tail */
  lemma TailWithoutOpen(s: string)
    requires s != [] && forall k :: 1 <= k < |s| ==> s[k] != '<'
    ensures '<' !in s[1..]
  {
    assert forall k :: 0 <= k < |s[1..]| ==> s[1..][k] == s[k + 1];
  }

  /** A `<br>` form holds `<` only at its front */
  lemma BrTagOpensOnce(tag: string)
    ensures IsBrTag(tag) ==> forall k :: 1 <= k < |tag| ==> tag[k] != '<'
  {
    if IsBrTag(tag) {
      BrOpenLower();
      forall k | 1 <= k < |tag|
        ensures tag[k] != '<'
      {
        if k < 3 {
          assert Lower(tag[..3])[k] == LowerChar(tag[k]);
          LowerCharLt(tag[k]);
        } else if k < |tag| - 1 {
          assert tag[3..|tag| - 1][k - 3] == tag[k];
        }
      }
    }
  }

  /** A `<br>` match that starts in `x` cannot reach past a `<` that follows `x` */
  lemma BrNoCrossing(x: string, t: string, n: nat)
    requires x != [] && t != [] && t[0] == '<' && |x| < n <= |x| + |t|
    ensures !IsBrTag((x + t)[..n])
  {
    var w := (x + t)[..n];
    BrTagOpensOnce(w);
    assert w[|x|] == '<';
  }

  /** No `<br>` match at the front of `x` means none at the front of `x + t` when `t` starts
      with `<` */
  lemma BrMissExtends(x: string, t: string)
    requires x != [] && BrAt(x) == None && (t == [] || t[0] == '<')
    ensures BrAt(x + t) == None
  {
    var s := x + t;
    forall n: nat | 4 <= n <= |s|
      ensures BrAt(s) != Some(n)
    {
      BrAtIff(s, n);
      if n <= |x| {
        assert s[..n] == x[..n];
        BrAtIff(x, n);
      } else {
        BrNoCrossing(x, t, n);
      }
    }
  }

  /** A `<br>` form at the front of `m + y` becomes a newline */
  lemma ReplaceBrFront(m: string, y: string)
    requires IsBrTag(m)
    ensures ReplaceBr(m + y) == "\n" + ReplaceBr(y)
  {
    var u := m + y;
    assert u[..|m|] == m && u[|m|..] == y;
    BrAtComplete(u, |m|);
  }

  /** A character where no `<br>` match starts is kept */
  lemma ReplaceBrMiss(c: char, y: string)
    requires BrAt([c] + y) == None
    ensures ReplaceBr([c] + y) == [c] + ReplaceBr(y)
  {
    assert ([c] + y)[1..] == y;
  }

  /** One step of the split where a `<br>` form of length `n` is at the front */
  lemma {:induction false} BrSplitHit(a: string, n: nat, t: string)
    requires 4 <= n <= |a| && IsBrTag(a[..n])
    requires ReplaceBr(a[n..] + t) == ReplaceBr(a[n..]) + ReplaceBr(t)
    ensures ReplaceBr(a + t) == ReplaceBr(a) + ReplaceBr(t)
  {
    var m, rest := a[..n], a[n..];
    assert a == m + rest;
    AppendAssoc(m, rest, t);
    ReplaceBrFront(m, rest);
    ReplaceBrFront(m, rest + t);
    Regroup(ReplaceBr(m + (rest + t)), ReplaceBr(m + rest), "\n", ReplaceBr(rest), ReplaceBr(t));
  }

  /** One step of the split where no `<br>` match starts at the front */
  lemma {:induction false} BrSplitMiss(a: string, t: string)
    requires a != [] && BrAt(a) == None && (t == [] || t[0] == '<')
    requires ReplaceBr(a[1..] + t) == ReplaceBr(a[1..]) + ReplaceBr(t)
    ensures ReplaceBr(a + t) == ReplaceBr(a) + ReplaceBr(t)
  {
    var c, rest := a[0], a[1..];
    assert a == [c] + rest;
    AppendAssoc([c], rest, t);
    BrMissExtends([c] + rest, t);
    ReplaceBrMiss(c, rest + t);
    ReplaceBrMiss(c, rest);
    Regroup(ReplaceBr([c] + (rest + t)), ReplaceBr([c] + rest), [c], ReplaceBr(rest), ReplaceBr(t));
  }

  /** No `<br>` match runs across a `<`, so the rewrite splits in front of one */
  lemma {:induction false} ReplaceBrSplit(a: string, t: string)
    requires t == [] || t[0] == '<'
    ensures ReplaceBr(a + t) == ReplaceBr(a) + ReplaceBr(t)
    decreases |a|
  {
    if a == [] {
      assert a + t == t;
    } else {
      match BrAt(a)
      case Some(n) =>
        BrAtSound(a, n);
        ReplaceBrSplit(a[n..], t);
        BrSplitHit(a, n, t);
      case None =>
        ReplaceBrSplit(a[1..], t);
        BrSplitMiss(a, t);
    }
  }

  /** The text in front of a `<`, or a newline, can be neither inside nor in front of an
      occurrence of `</p>` or `</div>` that it completes */
  lemma ClosingOnlyOpen(c: char, pat: string)
    requires pat == ParagraphClose || pat == DivisionClose
    requires c == '<' || c == '\n'
    ensures OnlyOpens(c, pat)
  {
  }

  /** Starts with `<`, or with a newline, or is empty */
  predicate OpensOrBreaks(t: string) {
    t == [] || t[0] == '<' || t[0] == '\n'
  }

  /** The `<br>` rewrite of a text opening with `<` opens with `<` or a newline */
  lemma ReplaceBrOpens(t: string)
    requires t == [] || t[0] == '<'
    ensures OpensOrBreaks(ReplaceBr(t))
  {
  }

  /** The closing-tag rewrites keep a text opening with `<` or a newline so */
  lemma ReplaceAllOpens(t: string, pat: string)
    requires pat == ParagraphClose || pat == DivisionClose
    requires OpensOrBreaks(t)
    ensures OpensOrBreaks(ReplaceAll(t, pat, "\n", true))
  {
  }

  /** The three line-break rewrites split in front of any `<` */
  lemma BreaksSplit(a: string, t: string)
    requires t == [] || t[0] == '<'
    ensures BreaksToNewlines(a + t) == BreaksToNewlines(a) + BreaksToNewlines(t)
  {
    ReplaceBrSplit(a, t);
    var r1, u1 := ReplaceBr(a), ReplaceBr(t);
    ReplaceBrOpens(t);
    if u1 != [] {
      ClosingOnlyOpen(u1[0], ParagraphClose);
    }
    ReplaceAllSplit(r1, u1, ParagraphClose, "\n", true);
    var r2, u2 := ReplaceAll(r1, ParagraphClose, "\n", true), ReplaceAll(u1, ParagraphClose, "\n", true);
    ReplaceAllOpens(u1, ParagraphClose);
    if u2 != [] {
      ClosingOnlyOpen(u2[0], DivisionClose);
    }
    ReplaceAllSplit(r2, u2, DivisionClose, "\n", true);
  }

  /** `</p>` and `</div>` are not `<br>` forms: the `<br>` rewrite keeps them */
  lemma CloseTagNotBr(tag: string, b: string)
    requires Lower(tag) == ParagraphClose || Lower(tag) == DivisionClose
    ensures ReplaceBr(tag + b) == tag + ReplaceBr(b)
  {
    CloseTagTail(tag);
    var c, rest := tag[0], tag[1..];
    assert tag == [c] + rest;
    AppendAssoc([c], rest, b);
    assert BrAt([c] + (rest + b)) == None by {
      var u := [c] + (rest + b);
      assert Lower(u[..3])[1] == LowerChar(tag[1]) == Lower(tag)[1] == '/';
    }
    ReplaceBrMiss(c, rest + b);
    ReplaceBrPass(rest, b);
    Regroup(ReplaceBr([c] + (rest + b)), tag, [c], rest, ReplaceBr(b));
  }

  /** A closing tag at the front, in any case, is replaced by its rewrite */
  lemma CloseTagHit(tag: string, pat: string, b: string)
    requires pat == ParagraphClose || pat == DivisionClose
    requires Lower(tag) == pat
    ensures ReplaceAll(tag + b, pat, "\n", true) == "\n" + ReplaceAll(b, pat, "\n", true)
  {
    ClosingTagsLower();
    assert tag[..|pat|] == tag;
    ReplaceAllFront(tag, b, pat, "\n", true);
  }

  /** A text opening with `</div>`, in any case, does not open with `</p>` */
  lemma DivisionIsNoParagraph(u: string)
    requires |u| >= 6 && Lower(u[..6]) == DivisionClose
    ensures !LiteralAt(u, ParagraphClose, true)
  {
    assert u[..6][2] == u[2] && u[..4][2] == u[2];
    assert Lower(u[..6])[2] == LowerChar(u[2]) == 'd';
    assert Lower(ParagraphClose)[2] == LowerChar('p') == 'p';
    assert Lower(u[..4])[2] == LowerChar(u[2]);
  }

  /** `</div>` is not `</p>`, whatever the case */
  lemma DivisionMissesParagraph(tag: string, b: string)
    requires Lower(tag) == DivisionClose
    ensures ReplaceAll(tag + b, ParagraphClose, "\n", true) == tag + ReplaceAll(b, ParagraphClose, "\n", true)
  {
    CloseTagTail(tag);
    var c, rest := tag[0], tag[1..];
    assert tag == [c] + rest;
    AppendAssoc([c], rest, b);
    var u := [c] + (rest + b);
    assert u[..6] == tag;
    DivisionIsNoParagraph(u);
    ReplaceAllMiss(c, rest + b, ParagraphClose, "\n", true);
    ReplaceAllPass(rest, b, ParagraphClose, "\n", true);
    Regroup(ReplaceAll(u, ParagraphClose, "\n", true), tag, [c], rest, ReplaceAll(b, ParagraphClose, "\n", true));
  }

  /** A line-break tag at the front becomes a newline, and the rest is rewritten on its own */
  lemma BreakTagFront(tag: string, b: string)
    requires IsBreakTag(tag)
    ensures BreaksToNewlines(tag + b) == "\n" + BreaksToNewlines(b)
  {
    var y := ReplaceBr(b);
    if IsBrTag(tag) {
      ReplaceBrFront(tag, b);
      ReplaceAllPass("\n", y, ParagraphClose, "\n", true);
      ReplaceAllPass("\n", ReplaceAll(y, ParagraphClose, "\n", true), DivisionClose, "\n", true);
    } else if Lower(tag) == ParagraphClose {
      CloseTagNotBr(tag, b);
      CloseTagHit(tag, ParagraphClose, y);
      ReplaceAllPass("\n", ReplaceAll(y, ParagraphClose, "\n", true), DivisionClose, "\n", true);
    } else {
      CloseTagNotBr(tag, b);
      DivisionMissesParagraph(tag, y);
      CloseTagHit(tag, DivisionClose, ReplaceAll(y, ParagraphClose, "\n", true));
    }
  }

  /** Every line-break tag opens with `<` */
  lemma BreakTagOpens(tag: string)
    requires IsBreakTag(tag)
    ensures tag != [] && tag[0] == '<'
  {
    if IsBrTag(tag) {
      assert Lower(tag[..3])[0] == LowerChar(tag[0]);
      LowerCharLt(tag[0]);
    } else {
      CloseTagTail(tag);
    }
  }

  /** Wherever it stands, `<br>`, `<br/>`, `<br />` (any case), `</p>` or `</div>` becomes one
      newline, and the text on either side is rewritten as if it stood alone */
  lemma BreakTagToNewline(a: string, tag: string, b: string)
    requires IsBreakTag(tag)
    ensures BreaksToNewlines(a + tag + b) == BreaksToNewlines(a) + "\n" + BreaksToNewlines(b)
  {
    BreakTagOpens(tag);
    AppendAssoc(a, tag, b);
    BreaksSplit(a, tag + b);
    BreakTagFront(tag, b);
    AppendAssoc(BreaksToNewlines(a), "\n", BreaksToNewlines(b));
  }

  /** All line-break tags strip alike, in any surroundings */
  lemma BreakTagsInterchangeable(a: string, tag1: string, tag2: string, b: string)
    requires IsBreakTag(tag1) && IsBreakTag(tag2)
    ensures StripHtml(a + tag1 + b) == StripHtml(a + tag2 + b)
  {
    BreakTagToNewline(a, tag1, b);
    BreakTagToNewline(a, tag2, b);
  }

  /** After text without `<`, a line-break tag strips exactly like a newline; the text after it
      is unrestricted */
  lemma BreakTagStripsAsNewline(a: string, tag: string, b: string)
    requires '<' !in a && IsBreakTag(tag)
    ensures StripHtml(a + tag + b) == StripHtml(a + "\n" + b)
  {
    BreakTagToNewline(a, tag, b);
    BreaksNoOpen(a);
    AppendAssoc(a, "\n", b);
    BreaksPass(a, "\n" + b);
    BreaksPass("\n", b);
    AppendAssoc(a, "\n", BreaksToNewlines(b));
  }

  /** A prefix without `&` passes through entity decoding unchanged */
  lemma DecodePass(a: string, t: string)
    requires '&' !in a
    ensures DecodeEntities(a + t) == a + DecodeEntities(t)
  {
    var t1 := ReplaceAll(t, "&nbsp;", " ", false);
    var t2 := ReplaceAll(t1, "&amp;", "&", false);
    var t3 := ReplaceAll(t2, "&lt;", "<", false);
    var t4 := ReplaceAll(t3, "&gt;", ">", false);
    ReplaceAllPass(a, t, "&nbsp;", " ", false);
    ReplaceAllPass(a, t1, "&amp;", "&", false);
    ReplaceAllPass(a, t2, "&lt;", "<", false);
    ReplaceAllPass(a, t3, "&gt;", ">", false);
    ReplaceAllPass(a, t4, "&quot;", "\"", false);
  }

  /** An entity is not another entity: they already differ in the letter after `&` */
  lemma EntityMiss(e: string, t: string, pat: string, rep: string)
    requires |e| >= 2 && |pat| >= 2 && e[0] == '&' && pat[0] == '&' && e[1] != pat[1]
    requires '&' !in e[1..]
    ensures ReplaceAll(e + t, pat, rep, false) == e + ReplaceAll(t, pat, rep, false)
  {
    var s := e + t;
    assert !LiteralAt(s, pat, false) by {
      if |pat| <= |s| {
        assert s[..|pat|][1] == e[1];
      }
    }
    assert s == [e[0]] + (e[1..] + t);
    ReplaceAllMiss(e[0], e[1..] + t, pat, rep, false);
    ReplaceAllPass(e[1..], t, pat, rep, false);
    assert [e[0]] + e[1..] == e;
  }

  /** `&lt;` decodes to `<`, and decoding goes on after it */
  lemma DecodeLt(t: string)
    ensures DecodeEntities("&lt;" + t) == "<" + DecodeEntities(t)
  {
    var t1 := ReplaceAll(t, "&nbsp;", " ", false);
    var t2 := ReplaceAll(t1, "&amp;", "&", false);
    var t3 := ReplaceAll(t2, "&lt;", "<", false);
    var t4 := ReplaceAll(t3, "&gt;", ">", false);
    EntityMiss("&lt;", t, "&nbsp;", " ");
    EntityMiss("&lt;", t1, "&amp;", "&");
    ReplaceAllHit("&lt;", t2, "<", false);
    ReplaceAllPass("<", t3, "&gt;", ">", false);
    ReplaceAllPass("<", t4, "&quot;", "\"", false);
  }

  /** `&gt;` decodes to `>`, and decoding goes on after it */
  lemma DecodeGt(t: string)
    ensures DecodeEntities("&gt;" + t) == ">" + DecodeEntities(t)
  {
    var t1 := ReplaceAll(t, "&nbsp;", " ", false);
    var t2 := ReplaceAll(t1, "&amp;", "&", false);
    var t3 := ReplaceAll(t2, "&lt;", "<", false);
    var t4 := ReplaceAll(t3, "&gt;", ">", false);
    EntityMiss("&gt;", t, "&nbsp;", " ");
    EntityMiss("&gt;", t1, "&amp;", "&");
    EntityMiss("&gt;", t2, "&lt;", "<");
    ReplaceAllHit("&gt;", t3, ">", false);
    ReplaceAllPass(">", t4, "&quot;", "\"", false);
  }

  /** `&nbsp;` decodes to a space, and decoding goes on after it */
  lemma DecodeNbsp(t: string)
    ensures DecodeEntities("&nbsp;" + t) == " " + DecodeEntities(t)
  {
    var t1 := ReplaceAll(t, "&nbsp;", " ", false);
    var t2 := ReplaceAll(t1, "&amp;", "&", false);
    var t3 := ReplaceAll(t2, "&lt;", "<", false);
    var t4 := ReplaceAll(t3, "&gt;", ">", false);
    ReplaceAllHit("&nbsp;", t, " ", false);
    ReplaceAllPass(" ", t1, "&amp;", "&", false);
    ReplaceAllPass(" ", t2, "&lt;", "<", false);
    ReplaceAllPass(" ", t3, "&gt;", ">", false);
    ReplaceAllPass(" ", t4, "&quot;", "\"", false);
  }

  /** `&quot;` decodes to `"`, and decoding goes on after it */
  lemma DecodeQuot(t: string)
    ensures DecodeEntities("&quot;" + t) == "\"" + DecodeEntities(t)
  {
    var t1 := ReplaceAll(t, "&nbsp;", " ", false);
    var t2 := ReplaceAll(t1, "&amp;", "&", false);
    var t3 := ReplaceAll(t2, "&lt;", "<", false);
    var t4 := ReplaceAll(t3, "&gt;", ">", false);
    EntityMiss("&quot;", t, "&nbsp;", " ");
    EntityMiss("&quot;", t1, "&amp;", "&");
    EntityMiss("&quot;", t2, "&lt;", "<");
    EntityMiss("&quot;", t3, "&gt;", ">");
    ReplaceAllHit("&quot;", t4, "\"", false);
  }

  /** `&amp;` decodes to `&` when what follows does not then complete a later entity */
  lemma DecodeAmp(t: string)
    requires '&' !in t && (t == [] || (t[0] != 'l' && t[0] != 'g' && t[0] != 'q'))
    ensures DecodeEntities("&amp;" + t) == "&" + t
  {
    var t1 := ReplaceAll(t, "&nbsp;", " ", false);
    EntityMiss("&amp;", t, "&nbsp;", " ");
    ReplaceAllPass(t, [], "&nbsp;", " ", false);
    assert t + [] == t;
    ReplaceAllHit("&amp;", t, "&", false);
    ReplaceAllPass(t, [], "&amp;", "&", false);
    var u := "&" + t;
    assert !LiteralAt(u, "&lt;", false) && !LiteralAt(u, "&gt;", false) && !LiteralAt(u, "&quot;", false) by {
      if t != [] {
        assert u[1] == t[0];
      }
    }
    ReplaceAllMiss('&', t, "&lt;", "<", false);
    ReplaceAllPass(t, [], "&lt;", "<", false);
    ReplaceAllMiss('&', t, "&gt;", ">", false);
    ReplaceAllPass(t, [], "&gt;", ">", false);
    ReplaceAllMiss('&', t, "&quot;", "\"", false);
    ReplaceAllPass(t, [], "&quot;", "\"", false);
  }

  /** The replacements run one after another, so an escaped entity is decoded twice:
      `&amp;lt;` becomes `<`, not the text `&lt;` */
  lemma EscapedEntityDecodedTwice()
    ensures DecodeEntities("&amp;lt;") == "<"
  {
    assert "&amp;lt;" == "&amp;" + "lt;";
    EntityMiss("&amp;", "lt;", "&nbsp;", " ");
    ReplaceAllPass("lt;", [], "&nbsp;", " ", false);
    assert "lt;" + [] == "lt;";
    ReplaceAllHit("&amp;", "lt;", "&", false);
    ReplaceAllPass("lt;", [], "&amp;", "&", false);
    assert "&" + "lt;" == "&lt;" + [];
    ReplaceAllHit("&lt;", [], "<", false);
    ReplaceAllPass("<", [], "&gt;", ">", false);
    ReplaceAllPass("<", [], "&quot;", "\"", false);
    assert "<" + [] == "<";
  }

  /** Text without `<`, `&` or a run of three newlines is only trimmed */
  lemma StripHtmlPlainText(s: string)
    requires '<' !in s && '&' !in s && NoTripleNewline(s)
    ensures StripHtml(s) == Trim(s)
  {
    BreaksNoOpen(s);
    ReplaceTagsPass(s, [], "");
    DecodePass(s, []);
    assert s + [] == s;
    CollapseNoTripleIdentity(s);
  }

  lemma DecodeEscapedTag(a: string)
    requires '&' !in a
    ensures DecodeEntities("&lt;" + a + "&gt;") == "<" + a + ">"
  {
    assert "&lt;" + a + "&gt;" == "&lt;" + (a + ("&gt;" + []));
    DecodeLt(a + ("&gt;" + []));
    DecodePass(a, "&gt;" + []);
    DecodeGt([]);
    assert DecodeEntities([]) == [];
    assert "<" + (a + (">" + [])) == "<" + a + ">";
  }

  /** Text without `<` holds no tag: stripping only decodes, collapses and trims */
  lemma StripWithoutTags(s: string)
    requires '<' !in s
    ensures StripHtml(s) == Trim(CollapseNewlines(DecodeEntities(s)))
  {
    BreaksNoOpen(s);
    ReplaceTagsPass(s, [], "");
    assert s + [] == s;
  }

  /** A single line with no space at either end is left alone by collapsing and trimming */
  lemma CleanLineKept(r: string)
    requires '\n' !in r && r != [] && !IsSpace(r[0]) && !IsSpace(r[|r| - 1])
    ensures Trim(CollapseNewlines(r)) == r
  {
    assert NoTripleNewline(r) by {
      assert '\n' !in r;
    }
    CollapseNoTripleIdentity(r);
    TrimOfTrimmed(r);
  }

  /** Tags are removed before entities are decoded, so an escaped tag survives as text:
      `&lt;b&gt;` strips to `<b>` */
  lemma EscapedTagSurvives(a: string)
    requires '<' !in a && '&' !in a && '\n' !in a
    ensures StripHtml("&lt;" + a + "&gt;") == "<" + a + ">"
  {
    EscapedHasNoOpen(a);
    StripWithoutTags("&lt;" + a + "&gt;");
    DecodeEscapedTag(a);
    BracketedShape(a);
    CleanLineKept("<" + a + ">");
  }

  /** The escaped form of a text without `<` has no `<` */
  lemma EscapedHasNoOpen(a: string)
    requires '<' !in a
    ensures '<' !in "&lt;" + a + "&gt;"
  {
  }

  /** A one-line text between `<` and `>` */
  lemma BracketedShape(a: string)
    requires '\n' !in a
    ensures var r := "<" + a + ">"; '\n' !in r && r[0] == '<' && r[|r| - 1] == '>'
  {
  }

  // ---------------------------------------------------------------------
  // formatGmailDate
  // ---------------------------------------------------------------------

  type Weekday = d: int | 0 <= d < 7
  type MonthIndex = m: int | 0 <= m < 12
  type Hour = h: int | 0 <= h < 24
  type Minute = m: int | 0 <= m < 60

  /** What `getDay`, `getMonth`, `getDate`, `getFullYear`, `getHours` and `getMinutes`
      report for a moment in local time */
  datatype DateParts = DateParts(
    weekday: Weekday, month: MonthIndex, day: nat, year: int, hours: Hour, minutes: Minute)

  const DayNames: seq<string> := ["Sun", "Mon", "Tue", "Wed", "Thu", "Fri", "Sat"]
  const MonthNames: seq<string> :=
    ["Jan", "Feb", "Mar", "Apr", "May", "Jun", "Jul", "Aug", "Sep", "Oct", "Nov", "Dec"]

  /** `hours % 12 || 12`: the hour on a 12-hour clock */
  function Hour12(h: Hour): (r: nat)
    ensures 1 <= r <= 12 && r % 12 == h % 12
  {
    if h % 12 == 0 then 12 else h % 12
  }

  /** `hours >= 12 ? 'PM' : 'AM'` */
  function Meridiem(h: Hour): (r: string)
    ensures r == "AM" || r == "PM"
    ensures r == "AM" <==> h < 12
  {
    if h >= 12 then "PM" else "AM"
  }

  /** The time of day: 12-hour value, two-digit minutes, the marker */
  function ClockText(h: Hour, m: Minute): string {
    NatToString(Hour12(h)) + ":" + PadStart2(m) + " " + Meridiem(h)
  }

  /** `formatGmailDate`: "On Wed, Dec 17, 2025 at 5:43 AM" */
  function FormatGmailDate(d: DateParts): string {
    "On " + DayNames[d.weekday] + ", " + MonthNames[d.month] + " " + NatToString(d.day) + ", "
      + IntToString(d.year) + " at " + ClockText(d.hours, d.minutes)
  }

  /** Reads a time of day written as `ClockText` writes it back into the 24-hour hour and
      the minutes */
  function ReadClock(s: string): Option<(int, int)> {
    match IndexOf(s, ':')
    case None => None
    case Some(k) =>
      var hs := s[..k];
      var rest := s[k + 1..];
      if hs == [] || !IsDigits(hs) || |rest| != 5 || !IsDigits(rest[..2]) || rest[2] != ' ' then None
      else
        var h12 := DigitsValue(hs);
        var m := DigitsValue(rest[..2]);
        if !(1 <= h12 <= 12) || m >= 60 then None
        else if rest[3..] == "AM" then Some((h12 % 12, m))
        else if rest[3..] == "PM" then Some((h12 % 12 + 12, m))
        else None
  }

  /** The first `:` after a run of digits is the one right after them */
  lemma ColonAfterDigits(d: string, t: string)
    requires IsDigits(d)
    ensures IndexOf(d + ":" + t, ':') == Some(|d|)
  {
    var s := d + ":" + t;
    assert s[|d|] == ':';
    assert s[..|d|] == d;
    assert ':' !in d by {
      forall i | 0 <= i < |d| ensures d[i] != ':' {
        assert '0' <= d[i] <= '9';
      }
    }
  }

  /** The pieces of `d:tail` around its colon */
  lemma ColonSplit(d: string, tail: string)
    ensures (d + ":" + tail)[..|d|] == d && (d + ":" + tail)[|d| + 1..] == tail
  {
  }

  /** The pieces of `p mer` for a two-character `p` */
  lemma MinuteSplit(p: string, mer: string)
    requires |p| == 2 && |mer| == 2
    ensures var r := p + " " + mer; |r| == 5 && r[..2] == p && r[2] == ' ' && r[3..] == mer
  {
  }

  /** `d:p mer` regrouped around its colon */
  lemma ClockAssoc(d: string, p: string, mer: string)
    ensures d + ":" + p + " " + mer == d + ":" + (p + " " + mer)
  {
  }

  /** Reading `d:p mer` for digits `d`, two digits `p` and a marker `mer` */
  lemma ReadClockParts(d: string, p: string, mer: string)
    requires d != [] && IsDigits(d) && |p| == 2 && IsDigits(p) && (mer == "AM" || mer == "PM")
    requires 1 <= DigitsValue(d) <= 12 && DigitsValue(p) < 60
    ensures ReadClock(d + ":" + p + " " + mer)
         == Some((DigitsValue(d) % 12 + (if mer == "PM" then 12 else 0), DigitsValue(p)))
  {
    var tail := p + " " + mer;
    ClockAssoc(d, p, mer);
    ColonAfterDigits(d, tail);
    ColonSplit(d, tail);
    MinuteSplit(p, mer);
  }

  /** The 12-hour value and the marker together give back the hour */
  lemma Hour12Back(h: Hour)
    ensures Hour12(h) % 12 + (if Meridiem(h) == "PM" then 12 else 0) == h
  {
  }

  /** The time of day printed in the date line determines the hour and the minutes */
  lemma ClockRoundTrip(h: Hour, m: Minute)
    ensures ReadClock(ClockText(h, m)) == Some((h, m))
  {
    var h12 := Hour12(h);
    var d := NatToString(h12);
    var p := PadStart2(m);
    var mer := Meridiem(h);
    NatToStringRoundTrip(h12);
    assert DigitsValue(d) == h12;
    assert DigitsValue(p) == m;
    ReadClockParts(d, p, mer);
    Hour12Back(h);
  }

  // ---------------------------------------------------------------------
  // Newest-first selection
  // ---------------------------------------------------------------------

  predicate NewestFirst(ms: seq<Message>) {
    forall i, j :: 0 <= i < j < |ms| ==> ms[i].timestamp >= ms[j].timestamp
  }

  /** A message no older than every message of a newest-first list can lead it */
  lemma NewestFirstCons(x: Message, rest: seq<Message>)
    requires NewestFirst(rest)
    requires forall k :: 0 <= k < |rest| ==> rest[k].timestamp <= x.timestamp
    ensures NewestFirst([x] + rest)
  {
    forall i, j | 0 <= i < j < |[x] + rest|
      ensures ([x] + rest)[i].timestamp >= ([x] + rest)[j].timestamp
    {
      if i > 0 {
        assert ([x] + rest)[i] == rest[i - 1] && ([x] + rest)[j] == rest[j - 1];
      } else {
        assert ([x] + rest)[j] == rest[j - 1];
      }
    }
  }

  /** A bound on the timestamps of the messages of a multiset bounds every list holding them */
  lemma BoundedByContents(rest: seq<Message>, s: seq<Message>, m: Message, b: int)
    requires multiset(rest) == multiset(s) + multiset{m}
    requires m.timestamp <= b && forall k :: 0 <= k < |s| ==> s[k].timestamp <= b
    ensures forall k :: 0 <= k < |rest| ==> rest[k].timestamp <= b
  {
    forall k | 0 <= k < |rest|
      ensures rest[k].timestamp <= b
    {
      var x := rest[k];
      assert x in multiset(rest);
      if x != m {
        assert x in multiset(s);
        var j :| 0 <= j < |s| && s[j] == x;
      }
    }
  }

  /** Places `m` before the first message that is not newer than it */
  function InsertNewest(m: Message, sorted: seq<Message>): (r: seq<Message>)
    requires NewestFirst(sorted)
    ensures NewestFirst(r)
    ensures multiset(r) == multiset(sorted) + multiset{m}
  {
    if sorted == [] || m.timestamp >= sorted[0].timestamp then
      NewestFirstCons(m, sorted);
      [m] + sorted
    else
      var s := sorted[1..];
      assert NewestFirst(s) by {
        forall i, j | 0 <= i < j < |s| ensures s[i].timestamp >= s[j].timestamp {
          assert s[i] == sorted[i + 1] && s[j] == sorted[j + 1];
        }
      }
      var rest := InsertNewest(m, s);
      assert sorted == [sorted[0]] + s;
      assert forall k :: 0 <= k < |s| ==> s[k].timestamp <= sorted[0].timestamp by {
        forall k | 0 <= k < |s| ensures s[k].timestamp <= sorted[0].timestamp {
          assert s[k] == sorted[k + 1];
        }
      }
      BoundedByContents(rest, s, m, sorted[0].timestamp);
      NewestFirstCons(sorted[0], rest);
      [sorted[0]] + rest
  }

  /** `[...messages].sort((a, b) => b.timestamp - a.timestamp)` on a copy: newest first, and
      a permutation of the input */
  function SortNewestFirst(ms: seq<Message>): (r: seq<Message>)
    ensures NewestFirst(r)
    ensures multiset(r) == multiset(ms)
  {
    if ms == [] then []
    else
      assert ms == [ms[0]] + ms[1..];
      InsertNewest(ms[0], SortNewestFirst(ms[1..]))
  }

  /** The messages stamped `t`, in their order */
  function Stamped(ms: seq<Message>, t: int): seq<Message> {
    if ms == [] then [] else (if ms[0].timestamp == t then [ms[0]] else []) + Stamped(ms[1..], t)
  }

  lemma StampedCons(x: Message, s: seq<Message>, t: int)
    ensures Stamped([x] + s, t) == (if x.timestamp == t then [x] else []) + Stamped(s, t)
  {
    assert ([x] + s)[1..] == s;
  }

  lemma {:induction false} InsertStamped(m: Message, sorted: seq<Message>, t: int)
    requires NewestFirst(sorted)
    ensures Stamped(InsertNewest(m, sorted), t) == (if m.timestamp == t then [m] else []) + Stamped(sorted, t)
  {
    if sorted == [] || m.timestamp >= sorted[0].timestamp {
      StampedCons(m, sorted, t);
    } else {
      var s := sorted[1..];
      var rest := InsertNewest(m, s);
      assert InsertNewest(m, sorted) == [sorted[0]] + rest;
      InsertStamped(m, s, t);
      StampedCons(sorted[0], rest, t);
      assert sorted == [sorted[0]] + s;
      StampedCons(sorted[0], s, t);
    }
  }

  /** The sort is stable: messages with equal timestamps keep their input order */
  lemma {:induction false} SortIsStable(ms: seq<Message>, t: int)
    ensures Stamped(SortNewestFirst(ms), t) == Stamped(ms, t)
  {
    if ms != [] {
      SortIsStable(ms[1..], t);
      InsertStamped(ms[0], SortNewestFirst(ms[1..]), t);
    }
  }

  /** `.slice(0, maxMessages)` of the sorted copy */
  function Recent(ms: seq<Message>, maxMessages: int): seq<Message> {
    SliceTo(SortNewestFirst(ms), maxMessages)
  }

  /** The selection is newest first, drawn from the input, and as long as the slice allows */
  lemma RecentSelection(ms: seq<Message>, maxMessages: int)
    ensures var r := Recent(ms, maxMessages);
      && NewestFirst(r)
      && multiset(r) <= multiset(ms)
      && (maxMessages >= 0 ==> |r| == if maxMessages < |ms| then maxMessages else |ms|)
      && (r == [] <==> maxMessages == 0 || |ms| + (if maxMessages < 0 then maxMessages else 0) <= 0)
  {
    var sorted := SortNewestFirst(ms);
    var r := Recent(ms, maxMessages);
    assert sorted == r + sorted[|r|..];
    assert multiset(sorted) == multiset(r) + multiset(sorted[|r|..]);
    assert |sorted| == |ms| by {
      assert |multiset(sorted)| == |multiset(ms)|;
    }
  }

  /** A message left out of the selection is no newer than any message selected */
  lemma RecentAreNewest(ms: seq<Message>, maxMessages: int, m: Message)
    requires multiset(Recent(ms, maxMessages))[m] < multiset(ms)[m]
    ensures forall k :: 0 <= k < |Recent(ms, maxMessages)| ==> Recent(ms, maxMessages)[k].timestamp >= m.timestamp
  {
    var sorted := SortNewestFirst(ms);
    var r := Recent(ms, maxMessages);
    var rest := sorted[|r|..];
    assert sorted == r + rest;
    assert multiset(sorted) == multiset(r) + multiset(rest);
    PrefixIsNewer(sorted, |r|, m);
  }

  /** In a newest-first list, a message past the first `n` is no newer than any of them */
  lemma PrefixIsNewer(sorted: seq<Message>, n: nat, m: Message)
    requires NewestFirst(sorted) && n <= |sorted| && m in multiset(sorted[n..])
    ensures forall k :: 0 <= k < n ==> sorted[k].timestamp >= m.timestamp
  {
    var rest := sorted[n..];
    var j :| 0 <= j < |rest| && rest[j] == m;
    assert sorted[n + j] == m;
  }

  // ---------------------------------------------------------------------
  // The chains
  // ---------------------------------------------------------------------

  const DefaultInstructorName := "Lionel Yu From MusicalBasics"
  const DefaultInstructorEmail := "support@musicalbasics.com"
  const DefaultMaxMessages := 10

  /** `ReplyChainOptions`; None is an option left undefined, which takes the default */
  datatype ReplyChainOptions = ReplyChainOptions(
    studentName: string,
    studentEmail: string,
    instructorName: Option<string>,
    instructorEmail: Option<string>,
    maxMessages: Option<int>)

  function SenderName(m: Message, o: ReplyChainOptions): string {
    if m.sender == SentByInstructor then o.instructorName.GetOr(DefaultInstructorName) else o.studentName
  }

  function SenderEmail(m: Message, o: ReplyChainOptions): string {
    if m.sender == SentByInstructor then o.instructorEmail.GetOr(DefaultInstructorEmail) else o.studentEmail
  }

  /** The messages a chain quotes */
  function Selected(messages: seq<Message>, o: ReplyChainOptions): seq<Message> {
    Recent(messages, o.maxMessages.GetOr(DefaultMaxMessages))
  }

  /** Each line prefixed with `> ` */
  function QuotePrefix(lines: seq<string>): (r: seq<string>)
    ensures |r| == |lines| && forall k :: 0 <= k < |lines| ==> r[k] == "> " + lines[k]
  {
    if lines == [] then [] else ["> " + lines[0]] + QuotePrefix(lines[1..])
  }

  /** `content.split('\n').map(line => `> ${line}`).join('\n')` */
  function QuoteLines(content: string): string {
    Join(QuotePrefix(Split(content)))
  }

  /** Each line with its first two characters dropped */
  function Unquote(lines: seq<string>): (r: seq<string>)
    requires forall k :: 0 <= k < |lines| ==> |lines[k]| >= 2
    ensures |r| == |lines| && forall k :: 0 <= k < |lines| ==> r[k] == lines[k][2..]
  {
    if lines == [] then [] else [lines[0][2..]] + Unquote(lines[1..])
  }

  /** Every line of the quoted text starts with `> `, and dropping that prefix from each line
      gives back the content */
  lemma QuoteRoundTrip(content: string)
    ensures var ls := Split(QuoteLines(content));
      && (forall k :: 0 <= k < |ls| ==> StartsWith(ls[k], "> "))
      && Join(Unquote(ls)) == content
  {
    var lines := Split(content);
    var q := QuotePrefix(lines);
    assert forall k :: 0 <= k < |q| ==> '\n' !in q[k] by {
      forall k | 0 <= k < |q| ensures '\n' !in q[k] {
        assert q[k] == "> " + lines[k];
      }
    }
    SplitJoin(q);
    assert forall k :: 0 <= k < |q| ==> q[k][..2] == "> " && q[k][2..] == lines[k];
    assert Unquote(q) == lines;
    JoinSplit(content);
  }

  /** The line that introduces a message of the text chain */
  function TextHeading(date: string, name: string, email: string): string {
    "\n" + date + " " + name + " <" + email + "> wrote:\n"
  }

  /** One message of the text chain */
  function TextEntry(m: Message, o: ReplyChainOptions, local: int -> DateParts): string {
    TextHeading(FormatGmailDate(local(m.timestamp)), SenderName(m, o), SenderEmail(m, o))
      + QuoteLines(StripHtml(m.content)) + "\n"
  }

  function TextEntries(ms: seq<Message>, o: ReplyChainOptions, local: int -> DateParts): string {
    if ms == [] then "" else TextEntries(ms[..|ms| - 1], o, local) + TextEntry(ms[|ms| - 1], o, local)
  }

  lemma TextEntriesSnoc(ms: seq<Message>, i: nat, o: ReplyChainOptions, local: int -> DateParts)
    requires i < |ms|
    ensures TextEntries(ms[..i + 1], o, local) == TextEntries(ms[..i], o, local) + TextEntry(ms[i], o, local)
  {
    assert ms[..i + 1][..i] == ms[..i];
  }

  /** Appending three pieces in turn appends their concatenation */
  lemma ChainStep(done: string, x: string, y: string, z: string, entry: string)
    requires entry == x + y + z
    ensures done + x + y + z == done + entry
  {
  }

  const TextChainHeader := "\n\n---\n"

  /** The text chain for the selected messages */
  function ReplyChainText(messages: seq<Message>, o: ReplyChainOptions, local: int -> DateParts): string {
    var recent := Selected(messages, o);
    if recent == [] then "" else TextChainHeader + TextEntries(recent, o, local)
  }

  /** `generateReplyChainText` */
  method GenerateReplyChainText(messages: seq<Message>, options: ReplyChainOptions, local: int -> DateParts)
    returns (chainText: string)
    ensures chainText == ReplyChainText(messages, options, local)
  {
    var maxMessages := options.maxMessages.GetOr(DefaultMaxMessages);
    var recentMessages := SliceTo(SortNewestFirst(messages), maxMessages);
    if |recentMessages| == 0 {
      return "";
    }
    var blocks := TextBlocks(recentMessages, options, local);
    chainText := TextChainHeader + blocks;
  }

  /** The loop of `generateReplyChainText`: one quoted entry per message, in order */
  method TextBlocks(recentMessages: seq<Message>, options: ReplyChainOptions, local: int -> DateParts)
    returns (chainText: string)
    ensures chainText == TextEntries(recentMessages, options, local)
  {
    var instructorName := options.instructorName.GetOr(DefaultInstructorName);
    var instructorEmail := options.instructorEmail.GetOr(DefaultInstructorEmail);
    chainText := "";
    for i := 0 to |recentMessages|
      invariant chainText == TextEntries(recentMessages[..i], options, local)
    {
      var msg := recentMessages[i];
      var isInstructor := msg.sender == SentByInstructor;
      var senderName := if isInstructor then instructorName else options.studentName;
      var senderEmail := if isInstructor then instructorEmail else options.studentEmail;
      var dateStr := FormatGmailDate(local(msg.timestamp));
      var plainContent := StripHtml(msg.content);
      assert senderName == SenderName(msg, options) && senderEmail == SenderEmail(msg, options);
      var heading := TextHeading(dateStr, senderName, senderEmail);
      var quoted := QuoteLines(plainContent);
      assert heading + quoted + "\n" == TextEntry(msg, options, local);
      ghost var done := chainText;
      chainText := chainText + heading;
      chainText := chainText + quoted;
      chainText := chainText + "\n";
      ChainStep(done, heading, quoted, "\n", TextEntry(msg, options, local));
      TextEntriesSnoc(recentMessages, i, options, local);
    }
    assert recentMessages[..|recentMessages|] == recentMessages;
  }

  /** The text chain is empty exactly when no message is selected, and otherwise begins
      with the separator */
  lemma ReplyChainTextEmpty(messages: seq<Message>, o: ReplyChainOptions, local: int -> DateParts)
    ensures var r := ReplyChainText(messages, o, local);
      && (r == "" <==> Selected(messages, o) == [])
      && (r != "" ==> StartsWith(r, TextChainHeader))
  {
    var r := ReplyChainText(messages, o, local);
    if Selected(messages, o) != [] {
      assert r[..|TextChainHeader|] == TextChainHeader;
    }
  }

  const ParagraphOpen := "<p style=\"margin: 0 0 0.5em 0;\">"

  /** `<p style="margin: 0 0 0.5em 0;">${line || '&nbsp;'}</p>` */
  function Paragraph(line: string): string {
    ParagraphOpen + (if line == "" then "&nbsp;" else line) + ParagraphClose
  }

  /** `.map(Paragraph).join('')` */
  function Paragraphs(lines: seq<string>): string {
    if lines == [] then "" else Paragraph(lines[0]) + Paragraphs(lines[1..])
  }

  /** The line a paragraph shows, reading `&nbsp;` as the empty line */
  function ParagraphLine(p: string): string
    requires |p| >= |ParagraphOpen| + |ParagraphClose|
  {
    var inner := p[|ParagraphOpen|..|p| - |ParagraphClose|];
    if inner == "&nbsp;" then "" else inner
  }

  /** Every line, the empty one included, is shown as a non-empty paragraph from which it can
      be read back; only a line that is literally `&nbsp;` reads back as empty */
  lemma ParagraphRoundTrip(line: string)
    requires line != "&nbsp;"
    ensures var p := Paragraph(line);
      && |p| > |ParagraphOpen| + |ParagraphClose|
      && ParagraphLine(p) == line
  {
    var inner := if line == "" then "&nbsp;" else line;
    var p := Paragraph(line);
    assert p[|ParagraphOpen|..|p| - |ParagraphClose|] == inner;
  }

  const QuoteBlockHead :=
    "\n<div class=\"gmail_quote\" style=\"margin: 0 0 0 0.8em; border-left: 1px solid #ccc; padding-left: 1em; color: #500050;\">\n  <div style=\"margin: 1em 0 0.5em 0; color: #777;\">\n    "
  const QuoteBlockMiddle := " wrote:\n  </div>\n  <blockquote style=\"margin: 0; padding: 0; color: #222;\">\n    "
  const QuoteBlockTail := "\n  </blockquote>\n</div>"
  const ChainHtmlHead := "\n<div style=\"margin-top: 2em; padding-top: 1em; border-top: 1px solid #eee;\">\n  "
  const ChainHtmlTail := "\n</div>"

  /** One message of the HTML chain */
  function HtmlEntry(m: Message, o: ReplyChainOptions, local: int -> DateParts): string {
    QuoteBlock(FormatGmailDate(local(m.timestamp)), SenderName(m, o), SenderEmail(m, o),
               Paragraphs(Split(StripHtml(m.content))))
  }

  /** The quote block template: the heading `<date> <name> &lt;<email>&gt; wrote:` above the
      quoted paragraphs */
  function QuoteBlock(date: string, name: string, email: string, paragraphs: string): string {
    QuoteBlockHead + date + " " + name + " &lt;" + email + "&gt;" + QuoteBlockMiddle + paragraphs + QuoteBlockTail
  }

  function HtmlEntries(ms: seq<Message>, o: ReplyChainOptions, local: int -> DateParts): string {
    if ms == [] then "" else HtmlEntries(ms[..|ms| - 1], o, local) + HtmlEntry(ms[|ms| - 1], o, local)
  }

  lemma HtmlEntriesSnoc(ms: seq<Message>, i: nat, o: ReplyChainOptions, local: int -> DateParts)
    requires i < |ms|
    ensures HtmlEntries(ms[..i + 1], o, local) == HtmlEntries(ms[..i], o, local) + HtmlEntry(ms[i], o, local)
  {
    assert ms[..i + 1][..i] == ms[..i];
  }

  /** The HTML chain for the selected messages */
  function ReplyChainHtml(messages: seq<Message>, o: ReplyChainOptions, local: int -> DateParts): string {
    var recent := Selected(messages, o);
    if recent == [] then "" else ChainHtmlWrap(HtmlEntries(recent, o, local))
  }

  /** The outer block around the quote blocks */
  function ChainHtmlWrap(blocks: string): (r: string)
    ensures r != [] && StartsWith(r, ChainHtmlHead)
  {
    ConcatParts(ChainHtmlHead, blocks + ChainHtmlTail, "");
    ChainHtmlHead + (blocks + ChainHtmlTail)
  }

  /** `generateReplyChainHtml` */
  method GenerateReplyChainHtml(messages: seq<Message>, options: ReplyChainOptions, local: int -> DateParts)
    returns (html: string)
    ensures html == ReplyChainHtml(messages, options, local)
  {
    var maxMessages := options.maxMessages.GetOr(DefaultMaxMessages);
    var recentMessages := SliceTo(SortNewestFirst(messages), maxMessages);
    if |recentMessages| == 0 {
      return "";
    }
    var chainHtml := QuoteBlocks(recentMessages, options, local);
    html := ChainHtmlWrap(chainHtml);
  }

  /** The loop of `generateReplyChainHtml`: one quote block per message, in order */
  method QuoteBlocks(recentMessages: seq<Message>, options: ReplyChainOptions, local: int -> DateParts)
    returns (chainHtml: string)
    ensures chainHtml == HtmlEntries(recentMessages, options, local)
  {
    var instructorName := options.instructorName.GetOr(DefaultInstructorName);
    var instructorEmail := options.instructorEmail.GetOr(DefaultInstructorEmail);
    chainHtml := "";
    for i := 0 to |recentMessages|
      invariant chainHtml == HtmlEntries(recentMessages[..i], options, local)
    {
      var msg := recentMessages[i];
      var isInstructor := msg.sender == SentByInstructor;
      var senderName := if isInstructor then instructorName else options.studentName;
      var senderEmail := if isInstructor then instructorEmail else options.studentEmail;
      var dateStr := FormatGmailDate(local(msg.timestamp));
      var plainContent := StripHtml(msg.content);
      var entry := QuoteBlock(dateStr, senderName, senderEmail, Paragraphs(Split(plainContent)));
      assert entry == HtmlEntry(msg, options, local);
      chainHtml := chainHtml + entry;
      HtmlEntriesSnoc(recentMessages, i, options, local);
    }
    assert recentMessages[..|recentMessages|] == recentMessages;
  }

  /** The HTML chain is empty exactly when no message is selected, and otherwise is wrapped
      in the outer block */
  lemma ReplyChainHtmlEmpty(messages: seq<Message>, o: ReplyChainOptions, local: int -> DateParts)
    ensures var r := ReplyChainHtml(messages, o, local);
      && (r == "" <==> Selected(messages, o) == [])
      && (r != "" ==> StartsWith(r, ChainHtmlHead))
  {
  }
}
