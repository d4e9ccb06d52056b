/**
 * The global cron sync route: sender-address extraction from the `From`
 * header, the decision to skip a message whose sender has no address, and
 * the body picked in the order plain part, own body, HTML part. Base64
 * decoding is the parameter `decode`, the reply parser (`EmailReplyParser`
 * with visible text only) the parameter `parse`.
 */
module CronSync {
  import opened Wrappers
  import opened Text
  import opened Mime

  // ---------------------------------------------------------------------
  // extractEmailAddress: header.match(/<(.+)>/)
  // ---------------------------------------------------------------------

  /** `h[i..j+1]` is a candidate match of `/<(.+)>/`: `<` at `i`, `>` at `j`, at least one
      character between them, and no line terminator among those (`.` matches none) */
  ghost predicate IsBracketMatch(h: string, i: int, j: int) {
    && 0 <= i && i + 1 < j < |h|
    && h[i] == '<' && h[j] == '>'
    && forall k :: i < k < j ==> !IsLineTerminator(h[k])
  }

  /** The match the regular expression returns: the leftmost candidate start, and for it the
      rightmost end, since `.+` is greedy */
  ghost predicate IsRegexMatch(h: string, i: int, j: int) {
    && IsBracketMatch(h, i, j)
    && (forall i', j' :: 0 <= i' < i && IsBracketMatch(h, i', j') ==> false)
    && (forall j' :: j < j' && IsBracketMatch(h, i, j') ==> false)
  }

  /** The first line terminator at or after `k`, or the end of `h` */
  function LineEnd(h: string, k: nat): (e: nat)
    requires k <= |h|
    ensures k <= e <= |h|
    ensures forall m :: k <= m < e ==> !IsLineTerminator(h[m])
    ensures e < |h| ==> IsLineTerminator(h[e])
    decreases |h| - k
  {
    if k == |h| || IsLineTerminator(h[k]) then k else LineEnd(h, k + 1)
  }

  /** The greatest `j` with `lo <= j < hi` and `h[j] == '>'` */
  function LastClose(h: string, lo: nat, hi: nat): (r: Option<nat>)
    requires hi <= |h|
    ensures r.Some? ==> lo <= r.value < hi && h[r.value] == '>'
                        && forall m :: r.value < m < hi ==> h[m] != '>'
    ensures r.None? ==> forall m :: lo <= m < hi ==> h[m] != '>'
    decreases hi
  {
    if hi <= lo then None
    else if h[hi - 1] == '>' then Some(hi - 1)
    else LastClose(h, lo, hi - 1)
  }

  /** The regular-expression search from offset `i` on */
  function MatchFrom(h: string, i: nat): (r: Option<(nat, nat)>)
    requires i <= |h|
    ensures r.Some? ==> r.value.0 >= i && IsBracketMatch(h, r.value.0, r.value.1)
    ensures r.Some? ==> forall i', j' :: i <= i' < r.value.0 && IsBracketMatch(h, i', j') ==> false
    ensures r.Some? ==> forall j' :: r.value.1 < j' && IsBracketMatch(h, r.value.0, j') ==> false
    ensures r.None? ==> forall i', j' :: i <= i' && IsBracketMatch(h, i', j') ==> false
    decreases |h| - i
  {
    if i == |h| then None
    else if h[i] == '<' && i + 1 < |h| then
      var e := LineEnd(h, i + 1);
      match LastClose(h, i + 2, e)
      case Some(j) => Some((i, j))
      case None => MatchFrom(h, i + 1)
    else MatchFrom(h, i + 1)
  }

  /** `extractEmailAddress`: the captured group of the match when there is one; otherwise
      the whole header if it holds an `@`; otherwise nothing (`null`) */
  function ExtractEmailAddress(h: string): (r: Option<string>)
    ensures forall i, j :: IsRegexMatch(h, i, j) ==> r == Some(h[i + 1..j])
    ensures (forall i, j :: !IsBracketMatch(h, i, j)) ==> r == if '@' in h then Some(h) else None
    ensures r.Some? ==> r.value != ""
  {
    match MatchFrom(h, 0)
    case Some((i, j)) =>
      assert IsRegexMatch(h, i, j);
      RegexMatchUnique(h, i, j);
      Some(h[i + 1..j])
    case None =>
      if '@' in h then Some(h) else None
  }

  /** The regular expression has at most one match */
  lemma RegexMatchUnique(h: string, i: int, j: int)
    requires IsRegexMatch(h, i, j)
    ensures forall i', j' :: IsRegexMatch(h, i', j') ==> i' == i && j' == j
  {
    forall i', j' | IsRegexMatch(h, i', j')
      ensures i' == i && j' == j
    {
      assert IsBracketMatch(h, i', j') && IsBracketMatch(h, i, j);
    }
  }

  /** On a one-line header, the address is the text between the first `<` and the last `>`,
      when at least one character lies between them */
  lemma AddressBetweenFirstOpenLastClose(h: string, i: nat, j: nat)
    requires forall k :: 0 <= k < |h| ==> !IsLineTerminator(h[k])
    requires i + 1 < j < |h| && h[i] == '<' && h[j] == '>'
    requires forall k :: 0 <= k < i ==> h[k] != '<'
    requires forall k :: j < k < |h| ==> h[k] != '>'
    ensures ExtractEmailAddress(h) == Some(h[i + 1..j])
  {
    assert IsBracketMatch(h, i, j);
    assert IsRegexMatch(h, i, j);
  }

  /** An empty pair of brackets is no match: a header such as "a@b <>" is returned whole */
  lemma EmptyBracketsFallBack()
    ensures ExtractEmailAddress("a@b <>") == Some("a@b <>")
  {
    var h := "a@b <>";
    forall i, j | 0 <= i < |h| && h[i] == '<'
      ensures !IsBracketMatch(h, i, j)
    {
      assert i == 4;
    }
    assert h[1] == '@';
  }

  /** One header line of the payload */
  datatype Header = Header(name: string, value: string)

  /** `headers?.find(h => h.name === 'From')?.value || ""`: the value of the first `From`
      header, "" when there is none */
  function FromHeader(headers: seq<Header>): (v: string)
    ensures (forall k :: 0 <= k < |headers| ==> headers[k].name != "From") ==> v == ""
    ensures forall k :: (0 <= k < |headers| && headers[k].name == "From"
                         && forall m :: 0 <= m < k ==> headers[m].name != "From") ==> v == headers[k].value
  {
    if headers == [] then ""
    else if headers[0].name == "From" then headers[0].value
    else FromHeader(headers[1..])
  }

  /** The sender address of a message, or None when the loop skips the message */
  function SenderAddress(headers: seq<Header>): (r: Option<string>)
    ensures (forall k :: 0 <= k < |headers| ==> headers[k].name != "From") ==> r.None?
    ensures forall k :: (0 <= k < |headers| && headers[k].name == "From"
                         && forall m :: 0 <= m < k ==> headers[m].name != "From") ==> r == ExtractEmailAddress(headers[k].value)
    ensures r.Some? ==> r.value != ""
  {
    ExtractEmailAddress(FromHeader(headers))
  }

  // ---------------------------------------------------------------------
  // extractBody
  // ---------------------------------------------------------------------

  /** `parts.findIndex(p => p.mimeType === mime)` */
  function FindType(parts: seq<Part>, mime: string): (r: Option<nat>)
    ensures r.Some? ==> r.value < |parts| && parts[r.value].mimeType == mime
                        && forall k :: 0 <= k < r.value ==> parts[k].mimeType != mime
    ensures r.None? ==> forall k :: 0 <= k < |parts| ==> parts[k].mimeType != mime
  {
    if parts == [] then None
    else if parts[0].mimeType == mime then Some(0)
    else
      match FindType(parts[1..], mime)
      case None => None
      case Some(k) => Some(k + 1)
  }

  /** The decoded data of the first part of type `mime`, "" when that part has no data or
      there is no such part (`find` stops at the first part of the type, with or without data) */
  function FirstOfTypeText(p: Part, mime: string, decode: string -> string): string {
    match FindType(p.parts, mime)
    case Some(k) => if p.parts[k].data != "" then decode(p.parts[k].data) else ""
    case None => ""
  }

  /** The first candidate: the first `text/plain` part */
  function PlainCandidate(p: Part, decode: string -> string): string {
    FirstOfTypeText(p, "text/plain", decode)
  }

  /** The second candidate: the payload's own body */
  function OwnCandidate(p: Part, decode: string -> string): string {
    if p.data != "" then decode(p.data) else ""
  }

  /** The third candidate: the first `text/html` part, each tag replaced by a space, trimmed */
  function HtmlCandidate(p: Part, decode: string -> string): string {
    match FindType(p.parts, "text/html")
    case Some(k) => if p.parts[k].data != "" then Trim(ReplaceTags(decode(p.parts[k].data), " ")) else ""
    case None => ""
  }

  /** The first non-empty string of `cands`, "" when all are empty */
  function FirstNonEmpty(cands: seq<string>): (r: string)
    ensures r == "" <==> forall k :: 0 <= k < |cands| ==> cands[k] == ""
    ensures forall k :: (0 <= k < |cands| && cands[k] != ""
                         && forall m :: 0 <= m < k ==> cands[m] == "") ==> r == cands[k]
  {
    if cands == [] then ""
    else if cands[0] != "" then cands[0]
    else FirstNonEmpty(cands[1..])
  }

  /** A further candidate is consulted only when all earlier ones are empty */
  lemma {:induction false} FirstNonEmptySnoc(cands: seq<string>, c: string)
    ensures FirstNonEmpty(cands + [c]) == if FirstNonEmpty(cands) != "" then FirstNonEmpty(cands) else c
  {
    if cands != [] {
      assert (cands + [c])[1..] == cands[1..] + [c];
      FirstNonEmptySnoc(cands[1..], c);
    }
  }

  /** `(parse(text) as string) || text`: the parser's result, or the unparsed text when the
      parser gives back nothing */
  function ParsedOrRaw(parse: string -> string, text: string): (r: string)
    ensures parse(text) != "" ==> r == parse(text)
    ensures parse(text) == "" ==> r == text
  {
    if parse(text) != "" then parse(text) else text
  }

  /** `extractBody` of the cron route */
  method ExtractBody(payload: Option<Part>, decode: string -> string, parse: string -> string)
    returns (body: string)
    ensures payload.None? ==> body == ""
    ensures payload.Some? ==>
      var p := payload.value;
      body == ParsedOrRaw(parse,
        FirstNonEmpty([PlainCandidate(p, decode), OwnCandidate(p, decode), HtmlCandidate(p, decode)]))
  {
    if payload.None? {
      return "";
    }
    var p := payload.value;
    var text := "";
    if p.parts != [] {
      var textPart := FindType(p.parts, "text/plain");
      if textPart.Some? && p.parts[textPart.value].data != "" {
        text := decode(p.parts[textPart.value].data);
      }
    }
    assert text == PlainCandidate(p, decode);
    if text == "" && p.data != "" {
      text := decode(p.data);
    }
    assert text == FirstNonEmpty([PlainCandidate(p, decode), OwnCandidate(p, decode)]);
    if text == "" && p.parts != [] {
      var htmlPart := FindType(p.parts, "text/html");
      if htmlPart.Some? && p.parts[htmlPart.value].data != "" {
        var html := decode(p.parts[htmlPart.value].data);
        text := Trim(ReplaceTags(html, " "));
      }
    }
    FirstNonEmptySnoc([PlainCandidate(p, decode), OwnCandidate(p, decode)], HtmlCandidate(p, decode));
    var cleanText := parse(text);
    body := if cleanText != "" then cleanText else text;
  }

  /** A tag-free string stays tag-free in every slice */
  lemma NoTagSlice(s: string, a: nat, b: nat)
    requires NoTag(s) && a <= b <= |s|
    ensures NoTag(s[a..b])
  {
    forall i | 0 <= i < b - a && s[a..b][i] == '<'
      ensures '>' !in s[a..b][i + 1..]
    {
      assert s[a..b][i + 1..] == s[a + i + 1..b];
      assert '>' !in s[a + i + 1..];
    }
  }

  /** The HTML fallback leaves no tag behind */
  lemma HtmlCandidateHasNoTag(p: Part, decode: string -> string)
    ensures NoTag(HtmlCandidate(p, decode))
  {
    match FindType(p.parts, "text/html")
    case Some(k) =>
      if p.parts[k].data != "" {
        var s := ReplaceTags(decode(p.parts[k].data), " ");
        ReplaceTagsNoTag(decode(p.parts[k].data), " ");
        var a := TrimShape(s);
        NoTagSlice(s, a, a + |Trim(s)|);
      }
    case None =>
  }
}
