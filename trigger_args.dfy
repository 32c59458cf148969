/**
 * Splitting the words of a `!command <subcommand> ...` chat message into the trigger being
 * managed and the data after it (`seperateTriggerFromArgs`). `args[0]` is the subcommand word,
 * `args[1]` starts the trigger. A trigger may be a quoted phrase, found by a regular expression
 * that is modelled here by an explicit leftmost scanner proved equal to the expression's grammar.
 */
module TriggerArgs {
  import opened Wrappers
  import opened JsStrings

  datatype ParsedArgs = ParsedArgs(trigger: string, remainingData: string)

  // ---- The quoted-trigger expression, read as a grammar over the joined string ----

  /** Lookbehind `(?<=(?:\s|^)")`: position `p` follows a quote that starts the string or
      follows whitespace. */
  predicate OpensAt(s: string, p: int) {
    1 <= p <= |s| && s[p - 1] == '"' && (p == 1 || IsWhitespace(s[p - 2]))
  }

  /** Body `(?:[^"]|(?:\\"))*`: non-quote characters and backslash-escaped quotes. */
  predicate BodyMatches(w: string)
    decreases |w|
  {
    w == [] ||
    (w[0] != '"' && BodyMatches(w[1..])) ||
    (|w| >= 2 && w[0] == '\\' && w[1] == '"' && BodyMatches(w[2..]))
  }

  /** Lookahead `(?=(?:"(?<!\\"))(?:\s|$))`: a quote at `e` not preceded by a backslash,
      followed by whitespace or the end of the string. */
  predicate ClosesAt(s: string, e: int) {
    0 <= e < |s| && s[e] == '"' && (e == 0 || s[e - 1] != '\\') &&
    (e + 1 == |s| || IsWhitespace(s[e + 1]))
  }

  /** The expression matches `s[p..e]`. */
  predicate SpanAt(s: string, p: int, e: int) {
    OpensAt(s, p) && p <= e <= |s| && BodyMatches(s[p..e]) && ClosesAt(s, e)
  }

  // ---- The scanner ----

  /** Every quote in `s[p..e]` is escaped by a backslash just before it, inside the span. */
  predicate NoBareQuote(s: string, p: int, e: int)
    requires 0 <= p <= e <= |s|
  {
    forall j :: p <= j < e && s[j] == '"' ==> j > p && s[j - 1] == '\\'
  }

  /** What the body part of the expression accepts is exactly a span with no bare quote. */
  lemma {:induction false} BodyMatchesIff(s: string, p: int, e: int)
    requires 0 <= p <= e <= |s|
    ensures BodyMatches(s[p..e]) <==> NoBareQuote(s, p, e)
    decreases e - p
  {
    if p < e {
      var w := s[p..e];
      assert w[0] == s[p];
      assert w[1..] == s[p + 1..e];
      BodyMatchesIff(s, p + 1, e);
      if p + 1 < e {
        assert w[1] == s[p + 1];
        assert w[2..] == s[p + 2..e];
        BodyMatchesIff(s, p + 2, e);
      }
    }
  }

  /** Scans from `j` for the first bare quote of the span opened at `p`: the only place the
      body can stop and a closing quote can follow. */
  function ScanClose(s: string, p: nat, j: nat): (r: Option<nat>)
    requires OpensAt(s, p) && p <= j <= |s| && NoBareQuote(s, p, j)
    ensures r.Some? ==> j <= r.value < |s| && NoBareQuote(s, p, r.value) && ClosesAt(s, r.value)
    ensures r.None? ==> forall e :: j <= e <= |s| && NoBareQuote(s, p, e) ==> !ClosesAt(s, e)
    decreases |s| - j
  {
    if j == |s| then None
    else if s[j] == '"' && (j == p || s[j - 1] != '\\') then
      if j + 1 == |s| || IsWhitespace(s[j + 1]) then Some(j) else None
    else
      ScanClose(s, p, j + 1)
  }

  /** A span the scanner accepts. */
  predicate Scanned(s: string, p: int, e: int) {
    OpensAt(s, p) && p <= e <= |s| && NoBareQuote(s, p, e) && ClosesAt(s, e)
  }

  /** The leftmost opening position at or after `p` with a closing quote. */
  function FindFrom(s: string, p: nat): (r: Option<(nat, nat)>)
    requires p <= |s| + 1
    ensures r.Some? ==> p <= r.value.0 && Scanned(s, r.value.0, r.value.1)
    ensures forall q, e :: p <= q && Scanned(s, q, e) ==> r.Some? && r.value.0 <= q
    decreases |s| + 1 - p
  {
    if p > |s| then None
    else if OpensAt(s, p) then
      match ScanClose(s, p, p)
      case Some(e) => Some((p, e))
      case None => FindFrom(s, p + 1)
    else FindFrom(s, p + 1)
  }

  /** For one opening position there is at most one closing quote. */
  lemma ScannedUnique(s: string, p: int, e1: int, e2: int)
    requires Scanned(s, p, e1) && Scanned(s, p, e2)
    ensures e1 == e2
  {
  }

  lemma SpanAtIff(s: string, p: int, e: int)
    ensures SpanAt(s, p, e) <==> Scanned(s, p, e)
  {
    if 0 <= p <= e <= |s| {
      BodyMatchesIff(s, p, e);
    }
  }

  /** Where `quotedTriggerRegex.exec(combined)` matches: the positions of `results[0]`. */
  function FindSpan(s: string): Option<(nat, nat)> {
    FindFrom(s, 0)
  }

  /** The scanner finds exactly the leftmost match of the expression, and for that opening
      position the only one. */
  lemma {:induction false} FindSpanIsLeftmostMatch(s: string)
    ensures FindSpan(s).None? <==> forall p, e :: !SpanAt(s, p, e)
    ensures FindSpan(s).Some? ==> SpanAt(s, FindSpan(s).value.0, FindSpan(s).value.1)
    ensures FindSpan(s).Some? ==> forall q, e :: SpanAt(s, q, e) ==>
      FindSpan(s).value.0 <= q && (q == FindSpan(s).value.0 ==> e == FindSpan(s).value.1)
  {
    var r := FindSpan(s);
    forall p, e | SpanAt(s, p, e)
      ensures r.Some? && r.value.0 <= p && (p == r.value.0 ==> e == r.value.1)
    {
      SpanAtIff(s, p, e);
      if p == r.value.0 {
        ScannedUnique(s, p, e, r.value.1);
      }
    }
    if r.Some? {
      SpanAtIff(s, r.value.0, r.value.1);
    }
  }

  /** `s[p..e]` is a match and no match opens further left. */
  ghost predicate LeftmostSpan(s: string, p: int, e: int) {
    SpanAt(s, p, e) && forall q, e2 :: SpanAt(s, q, e2) ==> p <= q
  }

  /** `results[0]`, the matched text, or `None` where `exec` returns `null`. */
  function QuotedTriggerExec(s: string): (r: Option<string>)
    ensures r.None? <==> forall p, e :: !SpanAt(s, p, e)
    ensures r.Some? ==> exists p, e :: LeftmostSpan(s, p, e) && 0 <= p <= e <= |s| && r.value == s[p..e]
  {
    FindSpanIsLeftmostMatch(s);
    match FindSpan(s)
    case None => None
    case Some((p, e)) => Some(s[p..e])
  }

  // ---- seperateTriggerFromArgs ----

  /** The trigger is `args[1]` verbatim, or the quoted phrase trimmed; what follows is always trimmed.
      Callers guarantee at least two words. */
  function SeparateTriggerFromArgs(args: seq<string>): (r: ParsedArgs)
    requires |args| >= 2
    ensures IsTrimmed(r.remainingData)
    ensures r.trigger == args[1] || (StartsWith(args[1], "\"") && IsTrimmed(r.trigger))
  {
    if StartsWith(args[1], "\"") then
      var combined := Join(args[1..]);
      match QuotedTriggerExec(combined)
      case None => ParsedArgs(args[1], Trim(Join(args[2..])))
      case Some(m) =>
        var trigger := Trim(m);
        ParsedArgs(trigger, Trim(ReplaceFirst(combined, "\"" + trigger + "\"", "")))
    else
      ParsedArgs(args[1], Trim(Join(args[2..])))
  }

  /** A trigger word that does not start with a quote is taken verbatim; the rest is the
      remaining words joined by single spaces and trimmed. */
  lemma UnquotedTrigger(args: seq<string>)
    requires |args| >= 2 && !StartsWith(args[1], "\"")
    ensures SeparateTriggerFromArgs(args) == ParsedArgs(args[1], Trim(Join(args[2..])))
  {
  }

  /** Whenever the expression has no match in the joined words (no closing quote, a closing quote
      glued to more text, or only escaped quotes), the parser falls back to the unquoted split:
      the trigger is `args[1]` with its quote, and the rest is the later words. */
  lemma NoMatchFallsBack(args: seq<string>)
    requires |args| >= 2 && StartsWith(args[1], "\"")
    requires forall p, e :: !SpanAt(Join(args[1..]), p, e)
    ensures SeparateTriggerFromArgs(args) == ParsedArgs(args[1], Trim(Join(args[2..])))
  {
    FindSpanIsLeftmostMatch(Join(args[1..]));
  }

  /** With an opening quote but no other quote anywhere, the expression cannot match. */
  lemma UnclosedQuoteFallsBack(args: seq<string>)
    requires |args| >= 2 && StartsWith(args[1], "\"")
    requires forall i :: 1 <= i < |Join(args[1..])| ==> Join(args[1..])[i] != '"'
    ensures SeparateTriggerFromArgs(args) == ParsedArgs(args[1], Trim(Join(args[2..])))
  {
    var s := Join(args[1..]);
    forall p, e ensures !SpanAt(s, p, e) {
    }
    NoMatchFallsBack(args);
  }

  /** `"foo"bar x`: the closing quote is glued to `bar`, so the expression has no match and the
      trigger is the word `"foo"bar`, quotes included. */
  lemma GluedQuoteExample()
    ensures SeparateTriggerFromArgs(["add", "\"foo\"bar", "x"]) == ParsedArgs("\"foo\"bar", "x")
  {
    var args := ["add", "\"foo\"bar", "x"];
    var s := Join(args[1..]);
    assert s == "\"foo\"bar x";
    forall p, e ensures !SpanAt(s, p, e) {
    }
    NoMatchFallsBack(args);
  }

  /** A joined string that starts with a quote has a first word that starts with one. */
  lemma JoinedOpeningQuote(words: seq<string>)
    requires words != [] && Join(words) != [] && Join(words)[0] == '"'
    ensures StartsWith(words[0], "\"")
  {
    JoinStartsWithHead(words);
  }

  /** The quoted phrase that opens `s` is the leftmost match of the expression. */
  lemma QuotedPrefixMatch(s: string, t: string, tail: string)
    requires s == "\"" + t + "\"" + tail
    requires '"' !in t && (t == [] || t[|t| - 1] != '\\')
    requires tail == [] || IsWhitespace(tail[0])
    ensures FindSpan(s) == Some((1, 1 + |t|)) && s[1..1 + |t|] == t
  {
    var e := 1 + |t|;
    assert s[0] == '"' && s[e] == '"';
    assert s[1..e] == t;
    forall j | 1 <= j < e ensures s[j] != '"' {
      assert s[j] == t[j - 1];
    }
    assert e + 1 < |s| ==> s[e + 1] == tail[0];
    assert Scanned(s, 1, e);
    SpanAtIff(s, 1, e);
    FindSpanIsLeftmostMatch(s);
  }

  /** A quoted phrase with no quote inside, no whitespace at its ends and no trailing backslash,
      followed by whitespace or nothing, comes back as the trigger; the remaining data is
      what follows it, trimmed. */
  lemma QuotedTriggerRoundTrip(args: seq<string>, t: string, tail: string)
    requires |args| >= 2
    requires Join(args[1..]) == "\"" + t + "\"" + tail
    requires '"' !in t && IsTrimmed(t) && (t == [] || t[|t| - 1] != '\\')
    requires tail == [] || IsWhitespace(tail[0])
    ensures SeparateTriggerFromArgs(args) == ParsedArgs(t, Trim(tail))
  {
    var s := Join(args[1..]);
    JoinedOpeningQuote(args[1..]);
    QuotedPrefixMatch(s, t, tail);
    assert QuotedTriggerExec(s) == Some(t);
    TrimOfTrimmed(t);
    var pat := "\"" + t + "\"";
    ReplaceAtFront(pat, tail, "");
    assert s == pat + tail && "" + tail == tail;
  }

  /** `!command add "hi there" body`: the quoted phrase is the trigger and `body` the response. */
  lemma QuotedPhraseExample(args: seq<string>)
    requires args == ["add", "\"hi", "there\"", "body"]
    ensures SeparateTriggerFromArgs(args) == ParsedArgs("hi there", "body")
  {
    var t, tail := "hi there", " body";
    QuotedPhraseJoin(args[1..], t, tail);
    QuotedTriggerRoundTrip(args, t, tail);
    TrimSpaceBody(tail);
  }

  lemma TrimSpaceBody(tail: string)
    requires tail == " body"
    ensures Trim(tail) == "body"
  {
    TrimOneSpace("body");
    assert tail == " " + "body";
  }

  lemma QuotedPhraseJoin(words: seq<string>, t: string, tail: string)
    requires words == ["\"hi", "there\"", "body"] && t == "hi there" && tail == " body"
    ensures Join(words) == "\"" + t + "\"" + tail
    ensures '"' !in t && IsTrimmed(t) && t[|t| - 1] != '\\' && IsWhitespace(tail[0])
  {
    assert words[1..][1..] == ["body"];
    assert Join(words[1..]) == "there\"" + " " + "body";
    assert forall i :: 0 <= i < |t| ==> t[i] != '"';
  }

  lemma TrimOneSpace(w: string)
    requires IsTrimmed(w)
    ensures Trim(" " + w) == w
  {
    assert AllWhitespace([' ']);
    TrimLeadingBlanks([' '], w);
  }
}
