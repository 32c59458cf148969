/**
 * The JavaScript string operations the chat handlers rely on, over `string` (a `seq<char>`):
 * `trim`, `startsWith`, `Array.prototype.join(" ")`, `split(" ")`, `indexOf`,
 * `replace` with a string pattern, and `toLowerCase` restricted to ASCII letters.
 */
module JsStrings {
  import opened Wrappers

  /** The characters JavaScript's `trim` strips and its regular-expression class `\s` matches
      (WhiteSpace and LineTerminator code points). */
  predicate IsWhitespace(c: char) {
    var n := c as int;
    n == 0x09 || n == 0x0A || n == 0x0B || n == 0x0C || n == 0x0D || n == 0x20 || n == 0xA0 ||
    n == 0x1680 || (0x2000 <= n <= 0x200A) || n == 0x2028 || n == 0x2029 || n == 0x202F ||
    n == 0x205F || n == 0x3000 || n == 0xFEFF
  }

  predicate AllWhitespace(s: string) {
    forall i :: 0 <= i < |s| ==> IsWhitespace(s[i])
  }

  /** Neither end of `s` is whitespace: `s` is what `trim` leaves. */
  predicate IsTrimmed(s: string) {
    s == [] || (!IsWhitespace(s[0]) && !IsWhitespace(s[|s| - 1]))
  }

  /** Every character of `s` from `lo` up to `hi` is white space. */
  predicate BlankBetween(s: string, lo: nat, hi: nat)
    requires lo <= hi <= |s|
  {
    forall i :: lo <= i < hi ==> IsWhitespace(s[i])
  }

  /** The number of white-space characters `s` starts with. */
  function LeadingBlanks(s: string): (n: nat)
    ensures n <= |s| && BlankBetween(s, 0, n) && (n == |s| || !IsWhitespace(s[n]))
  {
    if s != [] && IsWhitespace(s[0]) then 1 + LeadingBlanks(s[1..]) else 0
  }

  /** The number of white-space characters `s` ends with. */
  function TrailingBlanks(s: string): (n: nat)
    ensures n <= |s| && BlankBetween(s, |s| - n, |s|) && (n == |s| || !IsWhitespace(s[|s| - n - 1]))
  {
    if s != [] && IsWhitespace(s[|s| - 1]) then 1 + TrailingBlanks(s[..|s| - 1]) else 0
  }

  /** `trimStart`: the leading white space is cut off. */
  function TrimStart(s: string): (r: string)
    ensures |r| <= |s| && r == s[|s| - |r|..]
    ensures BlankBetween(s, 0, |s| - |r|)
    ensures r == [] || !IsWhitespace(r[0])
  {
    s[LeadingBlanks(s)..]
  }

  /** `String.prototype.trim`: `s` is white space, then the result, then white space. */
  function Trim(s: string): (r: string)
    ensures IsTrimmed(r)
    ensures exists k :: 0 <= k <= |s| - |r| && r == s[k..k + |r|] && BlankBetween(s, 0, k) && BlankBetween(s, k + |r|, |s|)
  {
    var k := LeadingBlanks(s);
    if k == |s| then
      assert BlankBetween(s, k, |s|);
      []
    else
      var m := TrailingBlanks(s);
      assert k < |s| - m;
      s[k..|s| - m]
  }

  /** `trim` only cuts characters off, so it brings in no upper-case letter. */
  lemma TrimKeepsLowerCase(s: string)
    requires forall i :: 0 <= i < |s| ==> !('A' <= s[i] <= 'Z')
    ensures forall i :: 0 <= i < |Trim(s)| ==> !('A' <= Trim(s)[i] <= 'Z')
  {
    var k := LeadingBlanks(s);
    if k < |s| {
      var m := TrailingBlanks(s);
      assert Trim(s) == s[k..|s| - m];
    }
  }

  /** A string with no white space at either end is left alone by `trim`. */
  lemma TrimOfTrimmed(s: string)
    requires IsTrimmed(s)
    ensures Trim(s) == s
  {
    if s != [] {
      assert LeadingBlanks(s) == 0 && TrailingBlanks(s) == 0;
      assert s[0..|s|] == s;
    }
  }

  /** White space in front of a string that starts with a non-blank is exactly its leading blanks. */
  lemma {:induction false} LeadingBlanksBefore(w: string, s: string)
    requires AllWhitespace(w) && (s == [] || !IsWhitespace(s[0]))
    ensures LeadingBlanks(w + s) == |w|
    decreases |w|
  {
    if w == [] {
      assert w + s == s;
    } else {
      assert (w + s)[1..] == w[1..] + s;
      LeadingBlanksBefore(w[1..], s);
    }
  }

  /** `trim` removes white space in front of a trimmed string. */
  lemma TrimLeadingBlanks(w: string, s: string)
    requires AllWhitespace(w) && IsTrimmed(s)
    ensures Trim(w + s) == s
  {
    LeadingBlanksBefore(w, s);
    if s != [] {
      var ws := w + s;
      assert ws[|ws| - 1] == s[|s| - 1];
      assert TrailingBlanks(ws) == 0;
      assert ws[|w|..|ws|] == s;
    }
  }

  /** Blank text trims to the empty string. */
  lemma TrimOfBlank(s: string)
    ensures AllWhitespace(s) ==> Trim(s) == ""
  {
  }

  /** A string that starts with a non-blank character is left alone by `trimStart`. */
  lemma NonBlankStart(s: string)
    requires s != [] && !IsWhitespace(s[0])
    ensures TrimStart(s) == s
  {
  }

  predicate StartsWith(s: string, prefix: string) {
    |prefix| <= |s| && s[..|prefix|] == prefix
  }

  /** `parts.join(" ")`. */
  function Join(parts: seq<string>): (r: string)
    ensures parts == [] ==> r == ""
    ensures |parts| == 1 ==> r == parts[0]
    ensures |parts| >= 2 ==> r == parts[0] + " " + Join(parts[1..])
  {
    if parts == [] then ""
    else if |parts| == 1 then parts[0]
    else parts[0] + " " + Join(parts[1..])
  }

  /** The joined string starts with the first part. */
  lemma JoinStartsWithHead(parts: seq<string>)
    requires parts != []
    ensures StartsWith(Join(parts), parts[0])
  {
    if |parts| > 1 {
      assert Join(parts) == parts[0] + (" " + Join(parts[1..]));
    }
  }

  /** Leftmost index at or after `from` of a character `c` in `s`. */
  function IndexOfChar(s: string, c: char, from: nat): (r: Option<nat>)
    requires from <= |s|
    ensures r.Some? ==> from <= r.value < |s| && s[r.value] == c && c !in s[from..r.value]
    ensures r.None? ==> c !in s[from..]
    decreases |s| - from
  {
    if from == |s| then None
    else if s[from] == c then Some(from)
    else
      var r := IndexOfChar(s, c, from + 1);
      assert r.Some? ==> s[from..r.value] == [s[from]] + s[from + 1..r.value];
      assert s[from..] == [s[from]] + s[from + 1..];
      r
  }

  lemma {:induction false} IndexOfCharFinds(s: string, c: char, from: nat, n: nat)
    requires from <= n < |s| && s[n] == c
    requires forall k :: from <= k < n ==> s[k] != c
    ensures IndexOfChar(s, c, from) == Some(n)
    decreases n - from
  {
    if from < n {
      IndexOfCharFinds(s, c, from + 1, n);
    }
  }

  /** `s.split(sep)` for a one-character separator: the pieces between the separators, in order. */
  function Split(s: string, sep: char): (r: seq<string>)
    ensures |r| >= 1
    ensures forall i :: 0 <= i < |r| ==> sep !in r[i]
    decreases |s|
  {
    match IndexOfChar(s, sep, 0)
    case None => [s]
    case Some(i) => [s[..i]] + Split(s[i + 1..], sep)
  }

  /** Splitting a space-joined list of space-free words gives the words back. */
  lemma {:induction false} SplitJoin(parts: seq<string>)
    requires parts != []
    requires forall i :: 0 <= i < |parts| ==> ' ' !in parts[i]
    ensures Split(Join(parts), ' ') == parts
  {
    if |parts| == 1 {
      assert Join(parts)[0..] == parts[0];
    } else {
      FirstSpace(parts);
      SplitJoin(parts[1..]);
    }
  }

  /** Joining the pieces of a split with the separator gives the string back. */
  lemma {:induction false} JoinSplit(s: string)
    ensures Join(Split(s, ' ')) == s
    decreases |s|
  {
    match IndexOfChar(s, ' ', 0)
    case None =>
    case Some(i) =>
      var rest := Split(s[i + 1..], ' ');
      JoinSplit(s[i + 1..]);
      assert Split(s, ' ') == [s[..i]] + rest;
      assert ([s[..i]] + rest)[1..] == rest;
      assert s == s[..i] + " " + s[i + 1..];
  }

  /** In a space-joined list whose first word has no space, the first space ends that word. */
  lemma FirstSpace(parts: seq<string>)
    requires |parts| >= 2 && ' ' !in parts[0]
    ensures IndexOfChar(Join(parts), ' ', 0) == Some(|parts[0]|)
    ensures Join(parts)[..|parts[0]|] == parts[0]
    ensures Join(parts)[|parts[0]| + 1..] == Join(parts[1..])
  {
    var s := Join(parts);
    var h := parts[0];
    assert s == h + " " + Join(parts[1..]);
    assert forall k :: 0 <= k < |h| ==> s[k] == h[k];
    IndexOfCharFinds(s, ' ', 0, |h|);
  }

  /** `pat` occurs in `s` starting at position `k`. */
  predicate OccursAt(s: string, pat: string, k: nat) {
    k + |pat| <= |s| && s[k..k + |pat|] == pat
  }

  /** Leftmost position at or after `from` where `pat` occurs in `s` (`indexOf`). */
  function IndexOfFrom(s: string, pat: string, from: nat): (r: Option<nat>)
    requires from <= |s|
    ensures r.Some? ==> from <= r.value && OccursAt(s, pat, r.value)
    ensures forall k: nat :: from <= k && (r.None? || k < r.value) ==> !OccursAt(s, pat, k)
    decreases |s| - from
  {
    if from + |pat| > |s| then None
    else if OccursAt(s, pat, from) then Some(from)
    else IndexOfFrom(s, pat, from + 1)
  }

  /** `s.replace(pat, rep)` with a string pattern: only the leftmost occurrence is replaced. */
  function ReplaceFirst(s: string, pat: string, rep: string): (r: string)
    ensures IndexOfFrom(s, pat, 0).None? ==> r == s
    ensures forall i: nat :: OccursAt(s, pat, i) && (forall k: nat :: k < i ==> !OccursAt(s, pat, k)) ==>
      r == s[..i] + rep + s[i + |pat|..]
  {
    match IndexOfFrom(s, pat, 0)
    case None => s
    case Some(i) => s[..i] + rep + s[i + |pat|..]
  }

  /** A pattern at the very front is the one `replace` rewrites. */
  lemma ReplaceAtFront(pat: string, tail: string, rep: string)
    ensures ReplaceFirst(pat + tail, pat, rep) == rep + tail
  {
    var s := pat + tail;
    assert OccursAt(s, pat, 0);
    assert IndexOfFrom(s, pat, 0) == Some(0);
    assert s[|pat|..] == tail;
  }

  /** `toLowerCase` on one character: an upper-case ASCII letter becomes its lower-case letter. */
  function LowerAscii(c: char): (r: char)
    ensures !('A' <= r <= 'Z')
    ensures 'A' <= c <= 'Z' || r == c
  {
    if 'A' <= c <= 'Z' then (c as int + 32) as char else c
  }

  /** `toLowerCase` on ASCII letters; every other character is kept. */
  function ToLowerAscii(s: string): (r: string)
    ensures |r| == |s|
    ensures forall i :: 0 <= i < |s| ==> r[i] == LowerAscii(s[i])
  {
    seq(|s|, i requires 0 <= i < |s| => LowerAscii(s[i]))
  }
}
