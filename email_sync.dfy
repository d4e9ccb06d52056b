/**
 * The per-student mail sync route: the quoted-reply cleaner, the walk over
 * the MIME tree that picks a body, and the placeholder stored for an empty
 * body. Base64 decoding is the parameter `decode`.
 */
module EmailSync {
  import opened Wrappers
  import opened Text
  import opened Mime

  // ---------------------------------------------------------------------
  // The quoted-reply cleaner
  // ---------------------------------------------------------------------

  /** `/^_+$/`: one or more underscores and nothing else */
  predicate IsUnderscoreRun(t: string) {
    |t| >= 1 && forall i :: 0 <= i < |t| ==> t[i] == '_'
  }

  /** The four rules that stop the scan, applied to the trimmed line */
  predicate IsQuoteMarker(trimmed: string) {
    || (StartsWith(trimmed, "On ") && Contains(trimmed, "wrote:"))
    || (StartsWith(trimmed, "From: ") && Contains(trimmed, "@"))
    || IsUnderscoreRun(trimmed)
    || StartsWith(trimmed, ">")
  }

  /** A line at which the scan stops */
  predicate IsStopLine(line: string) {
    IsQuoteMarker(Trim(line))
  }

  /** The lines before the first stop line: a prefix of `lines` that holds no stop line,
      and that is followed by a stop line unless it is all of `lines` */
  function KeptLines(lines: seq<string>): (r: seq<string>)
    ensures r <= lines
    ensures forall k :: 0 <= k < |r| ==> !IsStopLine(lines[k])
    ensures |r| < |lines| ==> IsStopLine(lines[|r|])
  {
    if lines == [] || IsStopLine(lines[0]) then [] else [lines[0]] + KeptLines(lines[1..])
  }

  /** What the cleaner returns: the kept lines, untrimmed, joined by newlines, and the
      joined text trimmed as a whole */
  function Cleaned(text: string): string {
    Trim(Join(KeptLines(Split(text))))
  }

  /** `cleanReplyBody` */
  method CleanReplyBody(text: string) returns (r: string)
    ensures r == Cleaned(text)
  {
    var lines := Split(text);
    var cleanLines: seq<string> := [];
    var i := 0;
    while i < |lines|
      invariant 0 <= i <= |lines|
      invariant cleanLines == lines[..i]
      invariant forall k :: 0 <= k < i ==> !IsStopLine(lines[k])
    {
      var line := lines[i];
      var trimmed := Trim(line);
      if StartsWith(trimmed, "On ") && Contains(trimmed, "wrote:") {
        break;
      }
      if StartsWith(trimmed, "From: ") && Contains(trimmed, "@") {
        break;
      }
      if IsUnderscoreRun(trimmed) {
        break;
      }
      if StartsWith(trimmed, ">") {
        break;
      }
      cleanLines := cleanLines + [line];
      i := i + 1;
    }
    KeptLinesUpTo(lines, i);
    r := Trim(Join(cleanLines));
  }

  /** The kept lines end exactly where the first stop line is */
  lemma KeptLinesUpTo(lines: seq<string>, i: nat)
    requires i <= |lines|
    requires forall k :: 0 <= k < i ==> !IsStopLine(lines[k])
    requires i < |lines| ==> IsStopLine(lines[i])
    ensures KeptLines(lines) == lines[..i]
  {
    var kept := KeptLines(lines);
    assert |kept| <= i;
    assert |kept| >= i;
  }

  /** Every line of `s` passes the scan */
  predicate NoStopLines(s: string) {
    forall k :: 0 <= k < |Split(s)| ==> !IsStopLine(Split(s)[k])
  }

  /** A trimmed text none of whose lines is a stop line comes out of the cleaner unchanged */
  lemma CleanedFixedPoint(s: string)
    requires NoStopLines(s) && Trim(s) == s
    ensures Cleaned(s) == s
  {
    assert KeptLines(Split(s)) == Split(s);
    JoinSplit(s);
  }

  /** Joining lines that pass the scan gives a text whose lines pass the scan */
  lemma NoStopLinesJoin(ls: seq<string>)
    requires forall k :: 0 <= k < |ls| ==> '\n' !in ls[k] && !IsStopLine(ls[k])
    ensures NoStopLines(Join(ls))
  {
    if ls == [] {
      assert Split("") == [""];
      assert Trim("") == "";
    } else {
      SplitJoin(ls);
    }
  }

  /** Dropping a leading newline drops an empty first line */
  lemma NoStopLinesDropNewline(t: string)
    requires NoStopLines("\n" + t)
    ensures NoStopLines(t)
  {
    var s := "\n" + t;
    assert s[1..] == t;
    assert Split(s) == [""] + Split(t);
    forall k | 0 <= k < |Split(t)|
      ensures !IsStopLine(Split(t)[k])
    {
      assert Split(t)[k] == Split(s)[k + 1];
    }
  }

  /** Dropping a leading space or tab only shortens the first line, whose trimmed form is
      the same */
  lemma NoStopLinesDropSpace(c: char, t: string)
    requires IsSpace(c) && c != '\n' && NoStopLines([c] + t)
    ensures NoStopLines(t)
  {
    var s := [c] + t;
    var T := Split(t);
    assert s[1..] == t && s[0] == c;
    assert Split(s) == [[c] + T[0]] + T[1..];
    TrimConsSpace(c, T[0]);
    forall k | 0 <= k < |T|
      ensures !IsStopLine(T[k])
    {
      if k > 0 {
        assert T[k] == Split(s)[k];
      } else {
        assert Split(s)[0] == [c] + T[0];
      }
    }
  }

  /** Cutting whitespace from the front keeps every line passing the scan: a cut newline
      drops an empty line, any other cut character only shortens the first line, whose
      trimmed form, the only thing the rules look at, stays the same */
  lemma {:induction false} NoStopLinesTrimStart(s: string)
    requires NoStopLines(s)
    ensures NoStopLines(TrimStart(s))
    decreases |s|
  {
    if s != [] && IsSpace(s[0]) {
      var t := s[1..];
      assert s == [s[0]] + t;
      if s[0] == '\n' {
        NoStopLinesDropNewline(t);
      } else {
        NoStopLinesDropSpace(s[0], t);
      }
      NoStopLinesTrimStart(t);
    }
  }

  /** Cutting whitespace from the end keeps every line passing the scan */
  lemma {:induction false} NoStopLinesTrimEnd(s: string)
    requires NoStopLines(s)
    ensures NoStopLines(TrimEnd(s))
    decreases |s|
  {
    if s != [] && IsSpace(s[|s| - 1]) {
      var t, c := s[..|s| - 1], s[|s| - 1];
      var T := Split(t);
      assert s == t + [c];
      SplitAppend(t, [c]);
      if c == '\n' {
        assert Split([c]) == [""] + Split([]);
        assert T[|T| - 1] + "" == T[|T| - 1];
        assert Split(s) == Glue(T, ["", ""]);
        assert Split(s) == T + [""];
        assert forall k :: 0 <= k < |T| ==> T[k] == Split(s)[k];
      } else {
        assert [c][1..] == [] && [c][0] == c;
        assert Split([c]) == [[c] + ""] + [];
        assert [c] + "" == [c];
        assert [[c] + ""] + [] == [[c]];
        assert Split(s) == Glue(T, [[c]]);
        assert [[c]][1..] == [];
        assert Split(s) == T[..|T| - 1] + [T[|T| - 1] + [c]];
        TrimSnocSpace(T[|T| - 1], c);
        assert forall k :: 0 <= k < |T| - 1 ==> T[k] == Split(s)[k];
        assert !IsStopLine(Split(s)[|T| - 1]);
      }
      NoStopLinesTrimEnd(t);
    }
  }

  /** Every line of a cleaned text passes the scan */
  lemma CleanedHasNoStopLines(text: string)
    ensures NoStopLines(Cleaned(text))
  {
    var kept := KeptLines(Split(text));
    assert forall k :: 0 <= k < |kept| ==> kept[k] == Split(text)[k];
    NoStopLinesJoin(kept);
    NoStopLinesTrimStart(Join(kept));
    NoStopLinesTrimEnd(TrimStart(Join(kept)));
  }

  /** Cleaning twice is cleaning once */
  lemma CleanedIdempotent(text: string)
    ensures Cleaned(Cleaned(text)) == Cleaned(text)
  {
    CleanedHasNoStopLines(text);
    TrimIdempotent(Join(KeptLines(Split(text))));
    CleanedFixedPoint(Cleaned(text));
  }

  /** A text with no stop line is only trimmed */
  lemma CleanedNoMarker(text: string)
    requires NoStopLines(text)
    ensures Cleaned(text) == Trim(text)
  {
    assert KeptLines(Split(text)) == Split(text);
    JoinSplit(text);
  }

  /** The scan stops at the first stop line: it and everything after it are dropped */
  lemma CleanedStopsAtFirstMarker(ls: seq<string>, k: nat)
    requires k < |ls|
    requires forall j :: 0 <= j < |ls| ==> '\n' !in ls[j]
    requires forall j :: 0 <= j < k ==> !IsStopLine(ls[j])
    requires IsStopLine(ls[k])
    ensures Cleaned(Join(ls)) == Trim(Join(ls[..k]))
  {
    SplitJoin(ls);
    KeptLinesUpTo(ls, k);
  }

  // ---------------------------------------------------------------------
  // Picking the body out of the MIME tree
  // ---------------------------------------------------------------------

  /** What `extractBody` returns for a present part: the picked text, cleaned */
  function PartBody(p: Part, decode: string -> string): string
    decreases p, 2, 0
  {
    Cleaned(PartText(p, decode))
  }

  /** The text picked in `p` before cleaning: its own body data when present, and
      otherwise what the scan of its parts picks */
  function PartText(p: Part, decode: string -> string): string
    decreases p, 1, 0
  {
    if p.data != "" then decode(p.data) else PartsText(p, 0, decode)
  }

  /** The scan of `p.parts` from index `i`: the first `text/plain` part that has data, or
      the first `multipart/` type part whose own extraction is non-empty; "" when none */
  function PartsText(p: Part, i: nat, decode: string -> string): string
    decreases p, 0, |p.parts| - i
  {
    if i >= |p.parts| then ""
    else
      var q := p.parts[i];
      if q.mimeType == "text/plain" && q.data != "" then decode(q.data)
      else if StartsWith(q.mimeType, "multipart/") && PartBody(q, decode) != "" then PartBody(q, decode)
      else PartsText(p, i + 1, decode)
  }

  /** `extractBody` on a missing payload or on a part */
  method ExtractBody(payload: Option<Part>, decode: string -> string) returns (body: string)
    ensures payload.None? ==> body == ""
    ensures payload.Some? ==> body == PartBody(payload.value, decode)
  {
    if payload.None? {
      return "";
    }
    body := ExtractPart(payload.value, decode);
  }

  /** The recursive body of `extractBody` for a present part */
  method ExtractPart(p: Part, decode: string -> string) returns (body: string)
    ensures body == PartBody(p, decode)
    decreases p
  {
    var text := "";
    if p.data != "" {
      text := decode(p.data);
    } else {
      var i := 0;
      while i < |p.parts|
        invariant 0 <= i <= |p.parts|
        invariant text == ""
        invariant PartsText(p, i, decode) == PartsText(p, 0, decode)
      {
        var part := p.parts[i];
        if part.mimeType == "text/plain" {
          if part.data != "" {
            text := decode(part.data);
            break;
          }
        }
        if StartsWith(part.mimeType, "multipart/") {
          text := ExtractPart(part, decode);
          if text != "" {
            break;
          }
        }
        i := i + 1;
      }
    }
    body := CleanReplyBody(text);
  }

  /** `part` is a hit of the scan: a `text/plain` part with data, or a `multipart/` type part
      with a non-empty extraction */
  predicate IsHit(q: Part, decode: string -> string) {
    || (q.mimeType == "text/plain" && q.data != "")
    || (StartsWith(q.mimeType, "multipart/") && PartBody(q, decode) != "")
  }

  /** The text a hit contributes */
  function HitText(q: Part, decode: string -> string): string {
    if q.mimeType == "text/plain" && q.data != "" then decode(q.data) else PartBody(q, decode)
  }

  /** Without top-level data, the body is the cleaned text of the first hit among the parts */
  lemma {:induction false} FirstHitWins(p: Part, i: nat, decode: string -> string)
    requires p.data == "" && i < |p.parts|
    requires IsHit(p.parts[i], decode)
    requires forall j :: 0 <= j < i ==> !IsHit(p.parts[j], decode)
    ensures PartBody(p, decode) == Cleaned(HitText(p.parts[i], decode))
  {
    SkipMisses(p, 0, i, decode);
  }

  /** Without top-level data and without a hit, the body is empty */
  lemma NoHitNoBody(p: Part, decode: string -> string)
    requires p.data == ""
    requires forall j :: 0 <= j < |p.parts| ==> !IsHit(p.parts[j], decode)
    ensures PartBody(p, decode) == ""
  {
    SkipMisses(p, 0, |p.parts|, decode);
    assert Split("") == [""];
    assert Trim("") == "";
  }

  lemma {:induction false} SkipMisses(p: Part, i: nat, k: nat, decode: string -> string)
    requires i <= k <= |p.parts|
    requires forall j :: i <= j < k ==> !IsHit(p.parts[j], decode)
    ensures PartsText(p, i, decode) == PartsText(p, k, decode)
    decreases k - i
  {
    if i < k {
      SkipMisses(p, i + 1, k, decode);
    }
  }

  /** `d` is the (non-empty) body data of `p` or of a part nested in it */
  predicate HasData(p: Part, d: string)
    decreases p
  {
    (d != "" && p.data == d) || exists i :: 0 <= i < |p.parts| && HasData(p.parts[i], d)
  }

  /** The body is the cleaned decoding of some data field of the tree, or nothing at all:
      a nested result cleaned once more at the top is unchanged, since cleaning is idempotent */
  lemma {:induction false} BodyComesFromData(p: Part, decode: string -> string)
    ensures PartBody(p, decode) == "" || exists d :: HasData(p, d) && PartBody(p, decode) == Cleaned(decode(d))
    decreases p, 1
  {
    if p.data != "" {
      assert HasData(p, p.data);
    } else {
      BodyComesFromParts(p, 0, decode);
    }
  }

  lemma {:induction false} BodyComesFromParts(p: Part, i: nat, decode: string -> string)
    requires p.data == ""
    ensures Cleaned(PartsText(p, i, decode)) == ""
         || exists d :: HasData(p, d) && Cleaned(PartsText(p, i, decode)) == Cleaned(decode(d))
    decreases p, 0, |p.parts| - i
  {
    if i < |p.parts| {
      var q := p.parts[i];
      if q.mimeType == "text/plain" && q.data != "" {
        assert HasData(q, q.data);
        assert HasData(p, q.data);
      } else if StartsWith(q.mimeType, "multipart/") && PartBody(q, decode) != "" {
        BodyComesFromData(q, decode);
        var d :| HasData(q, d) && PartBody(q, decode) == Cleaned(decode(d));
        assert HasData(p, d);
        CleanedIdempotent(decode(d));
      } else {
        BodyComesFromParts(p, i + 1, decode);
      }
    } else {
      assert Split("") == [""];
      assert Trim("") == "";
    }
  }

  /** The text stored as `body_text`: the extracted body, or a placeholder when it is empty */
  function StoredBody(body: string): (r: string)
    ensures r != ""
    ensures body != "" ==> r == body
    ensures body == "" ==> r == "(Could not parse email body)"
  {
    if body != "" then body else "(Could not parse email body)"
  }
}
