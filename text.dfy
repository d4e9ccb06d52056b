/**
 * String primitives of JavaScript that the CRM's transforms are built from:
 * `trim`, `split('\n')`/`join('\n')`, `startsWith`, `includes`, ASCII
 * `toLowerCase`, decimal rendering of numbers, and the global regular
 * expression `/<[^>]*>/g` that both the sync route and the reply chain use
 * to drop HTML tags.
 */
module Text {
  import opened Wrappers

  // ---------------------------------------------------------------------
  // Whitespace (ECMAScript WhiteSpace and LineTerminator, as `trim` and `\s` use them)
  // ---------------------------------------------------------------------

  /** The characters `String.prototype.trim` removes and the regular-expression class `\s` matches */
  predicate IsSpace(c: char) {
    c == '\t' || c == '\n' || c == '\U{000B}' || c == '\U{000C}' || c == '\r' || c == ' '
    || c == '\U{00A0}' || c == '\U{1680}' || ('\U{2000}' <= c <= '\U{200A}')
    || c == '\U{2028}' || c == '\U{2029}' || c == '\U{202F}' || c == '\U{205F}'
    || c == '\U{3000}' || c == '\U{FEFF}'
  }

  /** The characters the regular-expression `.` does not match */
  predicate IsLineTerminator(c: char) {
    c == '\n' || c == '\r' || c == '\U{2028}' || c == '\U{2029}'
  }

  /** `s.trimStart()` */
  function TrimStart(s: string): string {
    if s != [] && IsSpace(s[0]) then TrimStart(s[1..]) else s
  }

  /** `s.trimEnd()` */
  function TrimEnd(s: string): string {
    if s != [] && IsSpace(s[|s| - 1]) then TrimEnd(s[..|s| - 1]) else s
  }

  /** `s.trim()` */
  function Trim(s: string): string {
    TrimEnd(TrimStart(s))
  }

  /** `trimStart` cuts a run of whitespace from the front and stops at a non-space */
  lemma {:induction false} TrimStartShape(s: string)
    ensures |TrimStart(s)| <= |s|
    ensures TrimStart(s) == s[|s| - |TrimStart(s)|..]
    ensures TrimStart(s) != [] ==> !IsSpace(TrimStart(s)[0])
    ensures forall i :: 0 <= i < |s| - |TrimStart(s)| ==> IsSpace(s[i])
  {
    if s != [] && IsSpace(s[0]) {
      var t := s[1..];
      TrimStartShape(t);
      var r := TrimStart(t);
      assert TrimStart(s) == r;
      assert t[|t| - |r|..] == s[|s| - |r|..];
      forall i | 0 <= i < |s| - |r|
        ensures IsSpace(s[i])
      {
        if i > 0 {
          assert s[i] == t[i - 1];
        }
      }
    }
  }

  /** `trimEnd` cuts a run of whitespace from the end and stops at a non-space */
  lemma {:induction false} TrimEndShape(s: string)
    ensures |TrimEnd(s)| <= |s|
    ensures TrimEnd(s) == s[..|TrimEnd(s)|]
    ensures TrimEnd(s) != [] ==> !IsSpace(TrimEnd(s)[|TrimEnd(s)| - 1])
    ensures forall i :: |TrimEnd(s)| <= i < |s| ==> IsSpace(s[i])
  {
    if s != [] && IsSpace(s[|s| - 1]) {
      var t := s[..|s| - 1];
      TrimEndShape(t);
      var r := TrimEnd(t);
      assert TrimEnd(s) == r;
      assert t[..|r|] == s[..|r|];
      forall i | |r| <= i < |s|
        ensures IsSpace(s[i])
      {
        if i < |s| - 1 {
          assert s[i] == t[i];
        }
      }
    }
  }

  /** `trim` gives the slice of `s` from offset `a` that neither starts nor ends with
      whitespace, everything cut away on either side being whitespace */
  lemma TrimShape(s: string) returns (a: nat)
    ensures var r := Trim(s);
      && a + |r| <= |s| && r == s[a..a + |r|]
      && (r != [] ==> !IsSpace(r[0]) && !IsSpace(r[|r| - 1]))
      && (forall i :: 0 <= i < a ==> IsSpace(s[i]))
      && (forall i :: a + |r| <= i < |s| ==> IsSpace(s[i]))
  {
    var t := TrimStart(s);
    TrimStartShape(s);
    TrimEndShape(t);
    var r := TrimEnd(t);
    a := |s| - |t|;
    assert r == s[a..][..|r|] == s[a..a + |r|];
    assert forall i :: a + |r| <= i < |s| ==> s[i] == t[i - a];
  }

  /** The empty string is its own trim */
  lemma TrimEmpty()
    ensures Trim("") == ""
  {
    assert TrimStart("") == "";
  }

  /** A string that neither starts nor ends with whitespace is its own trim */
  lemma TrimOfTrimmed(s: string)
    requires s != [] ==> !IsSpace(s[0]) && !IsSpace(s[|s| - 1])
    ensures Trim(s) == s
  {
  }

  /** `trim` is idempotent */
  lemma TrimIdempotent(s: string)
    ensures Trim(Trim(s)) == Trim(s)
  {
    var _ := TrimShape(s);
    TrimOfTrimmed(Trim(s));
  }

  /** Appending whitespace does not change the trimmed form */
  lemma TrimSnocSpace(s: string, c: char)
    requires IsSpace(c)
    ensures Trim(s + [c]) == Trim(s)
  {
    TrimStartSnoc(s, c);
    assert (TrimStart(s) + [c])[..|TrimStart(s) + [c]| - 1] == TrimStart(s);
  }

  lemma {:induction false} TrimStartSnoc(s: string, c: char)
    requires IsSpace(c)
    ensures TrimStart(s + [c]) == if TrimStart(s) == [] then [] else TrimStart(s) + [c]
  {
    if s == [] {
      assert TrimStart([c]) == TrimStart([]);
    } else if IsSpace(s[0]) {
      assert (s + [c])[1..] == s[1..] + [c];
      TrimStartSnoc(s[1..], c);
    }
  }

  /** Prepending whitespace does not change the trimmed form */
  lemma TrimConsSpace(c: char, s: string)
    requires IsSpace(c)
    ensures Trim([c] + s) == Trim(s)
  {
    assert ([c] + s)[1..] == s;
  }

  // ---------------------------------------------------------------------
  // Prefixes and substrings
  // ---------------------------------------------------------------------

  /** `s.startsWith(p)` */
  predicate StartsWith(s: string, p: string) {
    |p| <= |s| && s[..|p|] == p
  }

  /** `p` occurs in `s` at offset `i` */
  predicate OccursAt(s: string, p: string, i: int) {
    0 <= i && i + |p| <= |s| && s[i..i + |p|] == p
  }

  /** `s.includes(p)`: `p` occurs in `s` at some offset */
  predicate Contains(s: string, p: string) {
    exists i :: 0 <= i <= |s| - |p| && OccursAt(s, p, i)
  }

  /** A string contains every middle piece of it */
  lemma ContainsMiddle(a: string, b: string, c: string)
    ensures Contains(a + b + c, b)
  {
    assert (a + b + c)[|a|..|a| + |b|] == b;
    assert OccursAt(a + b + c, b, |a|);
  }

  predicate EndsWith(s: string, p: string) {
    |p| <= |s| && s[|s| - |p|..] == p
  }

  /** A concatenation starts with its first part, ends with its second, and contains
      whatever its first part contains */
  lemma ConcatParts(a: string, b: string, p: string)
    ensures StartsWith(a + b, a) && EndsWith(a + b, b)
    ensures Contains(a, p) ==> Contains(a + b, p)
  {
    assert (a + b)[..|a|] == a;
    assert (a + b)[|a|..] == b;
    if Contains(a, p) {
      var i :| 0 <= i <= |a| - |p| && OccursAt(a, p, i);
      assert (a + b)[i..i + |p|] == a[i..i + |p|];
      assert OccursAt(a + b, p, i);
    }
  }

  /** Every string contains the empty string, as `s.includes("")` is true */
  lemma ContainsEmpty(s: string)
    ensures Contains(s, "")
  {
    assert OccursAt(s, "", 0);
  }

  // ---------------------------------------------------------------------
  // Lines: `s.split('\n')` and `lines.join('\n')`
  // ---------------------------------------------------------------------

  /** `s.split('\n')`: never empty, and no piece holds a newline */
  function Split(s: string): (r: seq<string>)
    ensures |r| >= 1
    ensures forall k :: 0 <= k < |r| ==> '\n' !in r[k]
    decreases |s|
  {
    if s == [] then [""]
    else if s[0] == '\n' then [""] + Split(s[1..])
    else
      var t := Split(s[1..]);
      [[s[0]] + t[0]] + t[1..]
  }

  /** `lines.join('\n')` (an empty array joins to "") */
  function Join(ls: seq<string>): string {
    if |ls| == 0 then ""
    else if |ls| == 1 then ls[0]
    else ls[0] + "\n" + Join(ls[1..])
  }

  /** Splitting and joining again gives back the string */
  lemma {:induction false} JoinSplit(s: string)
    ensures Join(Split(s)) == s
    decreases |s|
  {
    if s == [] {
    } else if s[0] == '\n' {
      JoinSplit(s[1..]);
      assert Split(s) == [""] + Split(s[1..]);
      assert Split(s)[1..] == Split(s[1..]);
    } else {
      var t := Split(s[1..]);
      JoinSplit(s[1..]);
      var u := [[s[0]] + t[0]] + t[1..];
      assert Split(s) == u;
      if |t| == 1 {
        assert Join(u) == [s[0]] + t[0] == [s[0]] + Join(t);
      } else {
        assert u[1..] == t[1..];
        assert Join(u) == ([s[0]] + t[0]) + "\n" + Join(t[1..]);
        assert Join(t) == t[0] + "\n" + Join(t[1..]);
      }
      assert s == [s[0]] + s[1..];
    }
  }

  /** A newline-free prefix glues onto the first line */
  lemma {:induction false} SplitPrefix(a: string, t: string)
    requires '\n' !in a
    ensures Split(a + t) == [a + Split(t)[0]] + Split(t)[1..]
    decreases |a|
  {
    if a == [] {
      assert a + t == t;
      assert a + Split(t)[0] == Split(t)[0];
      assert Split(t) == [Split(t)[0]] + Split(t)[1..];
    } else {
      assert (a + t)[0] == a[0];
      assert (a + t)[1..] == a[1..] + t;
      SplitPrefix(a[1..], t);
      assert [a[0]] + (a[1..] + Split(t)[0]) == a + Split(t)[0];
    }
  }

  /** Joining newline-free lines and splitting again gives back the lines */
  lemma {:induction false} SplitJoin(ls: seq<string>)
    requires |ls| >= 1
    requires forall k :: 0 <= k < |ls| ==> '\n' !in ls[k]
    ensures Split(Join(ls)) == ls
  {
    if |ls| == 1 {
      SplitPrefix(ls[0], "");
      assert ls[0] + "" == ls[0];
    } else {
      var rest := Join(ls[1..]);
      SplitJoin(ls[1..]);
      var nl := "\n" + rest;
      assert Join(ls) == ls[0] + nl;
      SplitPrefix(ls[0], nl);
      assert nl[0] == '\n' && nl[1..] == rest;
      assert Split(nl) == [""] + Split(rest);
      assert Split(nl)[0] == "" && Split(nl)[1..] == ls[1..];
      assert ls[0] + "" == ls[0];
      assert ls == [ls[0]] + ls[1..];
    }
  }

  /** The lines of `a + b` when `a` has lines `A` and `b` has lines `B`: the last line of
      `a` and the first line of `b` become one */
  function Glue(A: seq<string>, B: seq<string>): seq<string>
    requires |A| >= 1 && |B| >= 1
  {
    A[..|A| - 1] + [A[|A| - 1] + B[0]] + B[1..]
  }

  lemma GlueCons(x: string, A: seq<string>, B: seq<string>)
    requires |A| >= 1 && |B| >= 1
    ensures Glue([x] + A, B) == [x] + Glue(A, B)
  {
    assert ([x] + A)[..|A|] == [x] + A[..|A| - 1];
  }

  lemma GlueHead(c: char, A: seq<string>, B: seq<string>)
    requires |A| >= 1 && |B| >= 1
    ensures var G := Glue(A, B);
      Glue([[c] + A[0]] + A[1..], B) == [[c] + G[0]] + G[1..]
  {
    var G := Glue(A, B);
    var A2 := [[c] + A[0]] + A[1..];
    if |A| == 1 {
      assert A2 == [[c] + A[0]];
      assert G == [A[0] + B[0]] + B[1..];
      assert [c] + A[0] + B[0] == [c] + (A[0] + B[0]);
    } else {
      assert A2[..|A2| - 1] == [[c] + A[0]] + A[1..|A| - 1];
      assert G[0] == A[0];
      assert G[1..] == A[1..|A| - 1] + [A[|A| - 1] + B[0]] + B[1..];
    }
  }

  /** How the lines of a concatenation arise from the lines of its parts */
  lemma {:induction false} SplitAppend(a: string, b: string)
    ensures Split(a + b) == Glue(Split(a), Split(b))
    decreases |a|
  {
    if a == [] {
      assert a + b == b;
      var B := Split(b);
      assert Split(a) == [""] && "" + B[0] == B[0];
      assert Glue([""], B) == [B[0]] + B[1..] == B;
    } else {
      assert (a + b)[0] == a[0];
      assert (a + b)[1..] == a[1..] + b;
      SplitAppend(a[1..], b);
      if a[0] == '\n' {
        GlueCons("", Split(a[1..]), Split(b));
      } else {
        GlueHead(a[0], Split(a[1..]), Split(b));
      }
    }
  }

  // ---------------------------------------------------------------------
  // Case
  // ---------------------------------------------------------------------

  /** `toLowerCase` on one character, for the ASCII letters */
  function LowerChar(c: char): (d: char)
    ensures 'A' <= c <= 'Z' ==> d as int == c as int + 32
    ensures !('A' <= c <= 'Z') ==> d == c
  {
    if 'A' <= c <= 'Z' then (c as int + 32) as char else c
  }

  /** `s.toLowerCase()`, character by character */
  function Lower(s: string): (r: string)
    ensures |r| == |s| && forall i :: 0 <= i < |s| ==> r[i] == LowerChar(s[i])
  {
    if s == [] then [] else [LowerChar(s[0])] + Lower(s[1..])
  }

  // ---------------------------------------------------------------------
  // Decimal numbers, as template literals render them
  // ---------------------------------------------------------------------

  function DigitChar(d: nat): (c: char)
    requires d < 10
    ensures '0' <= c <= '9' && c as int - '0' as int == d
  {
    (d + '0' as int) as char
  }

  predicate IsDigits(s: string) {
    forall i :: 0 <= i < |s| ==> '0' <= s[i] <= '9'
  }

  /** The number a string of decimal digits denotes */
  function DigitsValue(s: string): nat
    requires IsDigits(s)
  {
    if s == [] then 0 else 10 * DigitsValue(s[..|s| - 1]) + (s[|s| - 1] as int - '0' as int)
  }

  /** `${n}` for a non-negative integer: digits, no leading zero */
  function NatToString(n: nat): (r: string)
    ensures r != [] && IsDigits(r)
    ensures |r| == 1 <==> n < 10
    ensures |r| > 1 ==> r[0] != '0'
  {
    if n < 10 then [DigitChar(n)] else NatToString(n / 10) + [DigitChar(n % 10)]
  }

  /** Reading the rendered digits back gives the number */
  lemma {:induction false} NatToStringRoundTrip(n: nat)
    ensures DigitsValue(NatToString(n)) == n
  {
    if n >= 10 {
      var s := NatToString(n);
      assert s[..|s| - 1] == NatToString(n / 10);
      NatToStringRoundTrip(n / 10);
    }
  }

  /** Rendering is one-to-one */
  lemma NatToStringInjective(m: nat, n: nat)
    requires NatToString(m) == NatToString(n)
    ensures m == n
  {
    NatToStringRoundTrip(m);
    NatToStringRoundTrip(n);
  }

  /** `${n}` for any integer */
  function IntToString(n: int): (r: string)
    ensures r != []
    ensures n >= 0 ==> r == NatToString(n)
    ensures n < 0 ==> r == "-" + NatToString(-n)
  {
    if n >= 0 then NatToString(n) else "-" + NatToString(-n)
  }

  /** `n.toString().padStart(2, '0')` */
  function PadStart2(n: nat): (r: string)
    ensures |r| >= 2 && IsDigits(r)
    ensures DigitsValue(r) == n
    ensures n < 100 ==> |r| == 2
  {
    var s := NatToString(n);
    NatToStringRoundTrip(n);
    if |s| < 2 then
      var r := ['0'] + s;
      assert r[..|r| - 1] == ['0'];
      assert DigitsValue(['0']) == 10 * DigitsValue([]) + 0;
      r
    else
      NumberLength(n);
      s
  }

  lemma {:induction false} NumberLength(n: nat)
    ensures n < 100 ==> |NatToString(n)| <= 2
  {
    if n >= 10 {
      NumberLength(n / 10);
    }
  }

  // ---------------------------------------------------------------------
  // The global regular expression /<[^>]*>/g
  // ---------------------------------------------------------------------

  /** Position of the first `c` in `s`, if any */
  function IndexOf(s: string, c: char): (r: Option<nat>)
    ensures r.Some? ==> r.value < |s| && s[r.value] == c && c !in s[..r.value]
    ensures r.None? <==> c !in s
  {
    if s == [] then None
    else if s[0] == c then Some(0)
    else
      match IndexOf(s[1..], c)
      case None => None
      case Some(k) =>
        assert s[..k + 1] == [s[0]] + s[1..][..k];
        Some(k + 1)
  }

  /** `s.replace(/<[^>]*>/g, rep)`: every `<` that has a `>` somewhere after it starts a
      tag running to the first such `>`; each tag is replaced by `rep` */
  function ReplaceTags(s: string, rep: string): string
    decreases |s|
  {
    if s == [] then []
    else if s[0] == '<' && '>' in s[1..] then
      var j := IndexOf(s[1..], '>').value + 1;
      rep + ReplaceTags(s[j + 1..], rep)
    else [s[0]] + ReplaceTags(s[1..], rep)
  }

  /** No `<` is followed, anywhere later, by a `>`: no tag is left to match */
  predicate NoTag(s: string) {
    forall i :: 0 <= i < |s| && s[i] == '<' ==> '>' !in s[i + 1..]
  }

  /** Tag replacement with a replacement free of angle brackets leaves no tag */
  lemma {:induction false} ReplaceTagsNoTag(s: string, rep: string)
    requires '<' !in rep && '>' !in rep
    ensures NoTag(ReplaceTags(s, rep))
    decreases |s|
  {
    if s == [] {
    } else if s[0] == '<' && '>' in s[1..] {
      var j := IndexOf(s[1..], '>').value + 1;
      ReplaceTagsNoTag(s[j + 1..], rep);
      var r := ReplaceTags(s[j + 1..], rep);
      forall i | 0 <= i < |rep + r| && (rep + r)[i] == '<'
        ensures '>' !in (rep + r)[i + 1..]
      {
        assert i >= |rep|;
        assert (rep + r)[i + 1..] == r[i - |rep| + 1..];
      }
    } else {
      ReplaceTagsNoTag(s[1..], rep);
      var r := ReplaceTags(s[1..], rep);
      if s[0] == '<' {
        ReplaceTagsKeepsNoClose(s[1..], rep);
      }
      forall i | 0 <= i < |[s[0]] + r| && ([s[0]] + r)[i] == '<'
        ensures '>' !in ([s[0]] + r)[i + 1..]
      {
        if i > 0 {
          assert ([s[0]] + r)[i + 1..] == r[i..];
        } else {
          assert ([s[0]] + r)[1..] == r;
        }
      }
    }
  }

  /** With no `>` in the input nor in the replacement, none appears in the output */
  lemma {:induction false} ReplaceTagsKeepsNoClose(s: string, rep: string)
    requires '>' !in s && '>' !in rep
    ensures '>' !in ReplaceTags(s, rep)
    decreases |s|
  {
    if s != [] {
      assert s[1..] <= s[1..];
      assert forall k :: 0 <= k < |s[1..]| ==> s[1..][k] == s[k + 1];
      ReplaceTagsKeepsNoClose(s[1..], rep);
    }
  }

  /** A prefix without `<` holds no tag: it passes through replacement unchanged */
  lemma {:induction false} ReplaceTagsPass(a: string, t: string, rep: string)
    requires '<' !in a
    ensures ReplaceTags(a + t, rep) == a + ReplaceTags(t, rep)
    decreases |a|
  {
    if a != [] {
      assert (a + t)[0] == a[0] && (a + t)[1..] == a[1..] + t;
      assert forall k :: 0 <= k < |a[1..]| ==> a[1..][k] == a[k + 1];
      ReplaceTagsPass(a[1..], t, rep);
      assert a == [a[0]] + a[1..];
    } else {
      assert a + t == t;
    }
  }

  // ---------------------------------------------------------------------
  // Global replacement of a literal pattern (String.prototype.replace with /pat/g or /pat/gi)
  // ---------------------------------------------------------------------

  /** Does `pat` occur at the start of `s`? With `ignoreCase`, ASCII letters match either case */
  predicate LiteralAt(s: string, pat: string, ignoreCase: bool) {
    |pat| <= |s| && (if ignoreCase then Lower(s[..|pat|]) == Lower(pat) else s[..|pat|] == pat)
  }

  /** `s.replace(/pat/g, rep)` (or `/pat/gi`): leftmost occurrences, scanning on after each one */
  function ReplaceAll(s: string, pat: string, rep: string, ignoreCase: bool): string
    requires pat != []
    decreases |s|
  {
    if s == [] then []
    else if LiteralAt(s, pat, ignoreCase) then rep + ReplaceAll(s[|pat|..], pat, rep, ignoreCase)
    else [s[0]] + ReplaceAll(s[1..], pat, rep, ignoreCase)
  }

  predicate IsAsciiLetter(c: char) {
    'a' <= c <= 'z' || 'A' <= c <= 'Z'
  }

  /** A prefix free of the pattern's first character, when that is not a letter, passes
      through replacement unchanged, with or without case folding */
  lemma {:induction false} ReplaceAllPass(a: string, t: string, pat: string, rep: string, ignoreCase: bool)
    requires pat != [] && pat[0] !in a && !IsAsciiLetter(pat[0])
    ensures ReplaceAll(a + t, pat, rep, ignoreCase) == a + ReplaceAll(t, pat, rep, ignoreCase)
    decreases |a|
  {
    if a != [] {
      var s := a + t;
      assert s[0] == a[0] && s[1..] == a[1..] + t;
      assert a[0] != pat[0];
      assert !LiteralAt(s, pat, ignoreCase) by {
        if |pat| <= |s| {
          assert s[..|pat|][0] == a[0];
          assert Lower(s[..|pat|])[0] == LowerChar(a[0]);
          assert Lower(pat)[0] == pat[0];
        }
      }
      assert pat[0] !in a[1..];
      ReplaceAllPass(a[1..], t, pat, rep, ignoreCase);
      assert a == [a[0]] + a[1..];
    } else {
      assert a + t == t;
    }
  }

  /** `c` cannot stand at any place of an occurrence of `pat` but its first, in either case */
  predicate OnlyOpens(c: char, pat: string) {
    forall k :: 1 <= k < |pat| ==> c != pat[k] && LowerChar(c) != LowerChar(pat[k])
  }

  /** An occurrence that starts in `x` cannot reach past a character of `t` that only opens one */
  lemma {:induction false} NoCrossing(x: string, t: string, pat: string, ignoreCase: bool)
    requires x != [] && t != [] && OnlyOpens(t[0], pat) && |x| < |pat|
    ensures !LiteralAt(x + t, pat, ignoreCase)
  {
    var s := x + t;
    if |pat| <= |s| {
      var w := s[..|pat|];
      assert w[|x|] == t[0];
      assert Lower(w)[|x|] == LowerChar(t[0]) && Lower(pat)[|x|] == LowerChar(pat[|x|]);
    }
  }

  /** No occurrence can run across a character that only opens one, so replacement splits there */
  lemma {:induction false} ReplaceAllSplit(x: string, t: string, pat: string, rep: string, ignoreCase: bool)
    requires pat != [] && (t == [] || OnlyOpens(t[0], pat))
    ensures ReplaceAll(x + t, pat, rep, ignoreCase) == ReplaceAll(x, pat, rep, ignoreCase) + ReplaceAll(t, pat, rep, ignoreCase)
    decreases |x|
  {
    if x == [] {
      assert x + t == t;
    } else if LiteralAt(x, pat, ignoreCase) {
      var m := x[..|pat|];
      ReplaceAllSplit(x[|pat|..], t, pat, rep, ignoreCase);
      assert x == m + x[|pat|..] && m[..|pat|] == m;
      SplitHitStep(m, x[|pat|..], t, pat, rep, ignoreCase);
    } else {
      ReplaceAllSplit(x[1..], t, pat, rep, ignoreCase);
      assert x == [x[0]] + x[1..];
      SplitMissStep(x[0], x[1..], t, pat, rep, ignoreCase);
    }
  }

  /** One step of the split where the occurrence `m` of the pattern is at the front */
  lemma {:induction false} SplitHitStep(m: string, rest: string, t: string, pat: string, rep: string, ignoreCase: bool)
    requires pat != [] && |m| == |pat| && LiteralAt(m, pat, ignoreCase)
    requires ReplaceAll(rest + t, pat, rep, ignoreCase)
          == ReplaceAll(rest, pat, rep, ignoreCase) + ReplaceAll(t, pat, rep, ignoreCase)
    ensures ReplaceAll(m + rest + t, pat, rep, ignoreCase)
         == ReplaceAll(m + rest, pat, rep, ignoreCase) + ReplaceAll(t, pat, rep, ignoreCase)
  {
    AppendAssoc(m, rest, t);
    ReplaceAllFront(m, rest, pat, rep, ignoreCase);
    ReplaceAllFront(m, rest + t, pat, rep, ignoreCase);
    Regroup(ReplaceAll(m + (rest + t), pat, rep, ignoreCase), ReplaceAll(m + rest, pat, rep, ignoreCase),
            rep, ReplaceAll(rest, pat, rep, ignoreCase), ReplaceAll(t, pat, rep, ignoreCase));
  }

  /** An occurrence `m` of the pattern at the front, in whatever case it matches, is replaced,
      and the scan goes on after it */
  lemma ReplaceAllFront(m: string, y: string, pat: string, rep: string, ignoreCase: bool)
    requires pat != [] && |m| == |pat| && LiteralAt(m, pat, ignoreCase)
    ensures ReplaceAll(m + y, pat, rep, ignoreCase) == rep + ReplaceAll(y, pat, rep, ignoreCase)
  {
    assert (m + y)[..|pat|] == m && (m + y)[|pat|..] == y;
  }

  /** One step of the split where the pattern does not occur at the front of `[c] + rest` */
  lemma {:induction false} SplitMissStep(c: char, rest: string, t: string, pat: string, rep: string, ignoreCase: bool)
    requires pat != [] && !LiteralAt([c] + rest, pat, ignoreCase)
    requires t == [] || OnlyOpens(t[0], pat)
    requires ReplaceAll(rest + t, pat, rep, ignoreCase)
          == ReplaceAll(rest, pat, rep, ignoreCase) + ReplaceAll(t, pat, rep, ignoreCase)
    ensures ReplaceAll([c] + rest + t, pat, rep, ignoreCase)
         == ReplaceAll([c] + rest, pat, rep, ignoreCase) + ReplaceAll(t, pat, rep, ignoreCase)
  {
    AppendAssoc([c], rest, t);
    MissExtends([c] + rest, t, pat, ignoreCase);
    ReplaceAllMiss(c, rest + t, pat, rep, ignoreCase);
    ReplaceAllMiss(c, rest, pat, rep, ignoreCase);
    Regroup(ReplaceAll([c] + (rest + t), pat, rep, ignoreCase), ReplaceAll([c] + rest, pat, rep, ignoreCase),
            [c], ReplaceAll(rest, pat, rep, ignoreCase), ReplaceAll(t, pat, rep, ignoreCase));
  }

  /** Regrouping a concatenation, kept apart from the functions whose results are regrouped */
  lemma Regroup(x: string, y: string, r: string, a: string, b: string)
    requires x == r + (a + b) && y == r + a
    ensures x == y + b
  {
  }

  lemma AppendAssoc(p: string, q: string, r: string)
    ensures p + q + r == p + (q + r)
  {
  }

  /** With no occurrence at the front of `x`, none is at the front of `x + t` either */
  lemma {:induction false} MissExtends(x: string, t: string, pat: string, ignoreCase: bool)
    requires pat != [] && x != [] && !LiteralAt(x, pat, ignoreCase)
    requires t == [] || OnlyOpens(t[0], pat)
    ensures !LiteralAt(x + t, pat, ignoreCase)
  {
    if |pat| <= |x| {
      assert (x + t)[..|pat|] == x[..|pat|];
    } else if t != [] {
      NoCrossing(x, t, pat, ignoreCase);
    }
  }

  /** An occurrence of the pattern at the front is replaced, and the scan goes on after it */
  lemma ReplaceAllHit(pat: string, t: string, rep: string, ignoreCase: bool)
    requires pat != []
    ensures ReplaceAll(pat + t, pat, rep, ignoreCase) == rep + ReplaceAll(t, pat, rep, ignoreCase)
  {
    var s := pat + t;
    assert s[..|pat|] == pat && s[|pat|..] == t;
  }

  /** A character where the pattern does not start is kept */
  lemma ReplaceAllMiss(c: char, t: string, pat: string, rep: string, ignoreCase: bool)
    requires pat != [] && !LiteralAt([c] + t, pat, ignoreCase)
    ensures ReplaceAll([c] + t, pat, rep, ignoreCase) == [c] + ReplaceAll(t, pat, rep, ignoreCase)
  {
    assert ([c] + t)[1..] == t;
  }
}
