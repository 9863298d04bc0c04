/**
 * Extraction of the package identity (name, version, description) from the text
 * of a CMakeLists file, as the recipe does with one regular-expression search in
 * DOTALL mode. The pattern reads: the word `project`, optional white space, `(`,
 * optional white space, a name token of non-space characters, white space, the word
 * `VERSION`, white space, a version token of characters that are neither white
 * space nor `)`, an optional group of white space, `DESCRIPTION`, white space and
 * a non-empty double-quoted text, and finally the shortest run of any characters
 * ending in `)`.
 *
 * The search is written out as a scanner over suffixes of the text: Match is the
 * backtracking matcher anchored at the front of a suffix, and Search tries the
 * start positions from left to right, as re.search does.
 */
module ProjectMetadata {
  import opened Wrappers

  const DefaultDescription: string := "A modern C++ project template."

  datatype Metadata = Metadata(name: string, version: string, description: string)

  datatype ExtractError = PatternNotFound

  /** The characters matched by `\s` in a Python str pattern (those for which str.isspace holds). */
  predicate IsSpace(c: char) {
    c == ' ' || ('\t' <= c <= '\r') || ('\U{1C}' <= c <= '\U{1F}') || c == '\U{85}' || c == '\U{A0}'
    || c == '\U{1680}' || ('\U{2000}' <= c <= '\U{200A}') || c == '\U{2028}' || c == '\U{2029}'
    || c == '\U{202F}' || c == '\U{205F}' || c == '\U{3000}'
  }

  /** The character classes the pattern repeats: `\s`, `\S`, `[^\s)]` and `[^"]`. */
  datatype CharClass = Space | NotSpace | VersionChar | NotQuote

  predicate InClass(c: char, cls: CharClass) {
    match cls
    case Space => IsSpace(c)
    case NotSpace => !IsSpace(c)
    case VersionChar => !IsSpace(c) && c != ')'
    case NotQuote => c != '"'
  }

  predicate AllIn(s: string, cls: CharClass) { forall k :: 0 <= k < |s| ==> InClass(s[k], cls) }

  predicate StartsWith(t: string, lit: string) { |lit| <= |t| && t[..|lit|] == lit }

  /** ASCII upper case to lower case, as str.lower does on ASCII letters. */
  function LowerChar(c: char): (d: char)
    ensures 'A' <= c <= 'Z' ==> 'a' <= d <= 'z' && d as int - c as int == 32
    ensures !('A' <= c <= 'Z') ==> d == c
  {
    if 'A' <= c <= 'Z' then (c as int + 32) as char else c
  }

  function Lower(s: string): (r: string)
    ensures |r| == |s|
    ensures forall k :: 0 <= k < |s| ==> r[k] == LowerChar(s[k])
    ensures NoUpper(r) && (AllIn(s, NotSpace) ==> AllIn(r, NotSpace))
  {
    if s == [] then [] else [LowerChar(s[0])] + Lower(s[1..])
  }

  /**
   * The greedy repetition of a character class at the front of t: what is left of t
   * after the longest prefix whose characters are all in the class.
   */
  function SkipWhile(t: string, cls: CharClass): (r: string)
    ensures |r| <= |t|
    ensures AllIn(t[..|t| - |r|], cls)
    ensures r == [] || !InClass(r[0], cls)
  {
    if t != [] && InClass(t[0], cls) then
      var r := SkipWhile(t[1..], cls);
      assert t[..|t| - |r|] == [t[0]] + t[1..][..|t[1..]| - |r|];
      r
    else t
  }

  /** What the greedy repetition leaves is a suffix of its input. */
  lemma {:induction false} SkipWhileIsSuffix(t: string, cls: CharClass)
    ensures SkipWhile(t, cls) == t[|t| - |SkipWhile(t, cls)|..]
  {
    if t != [] && InClass(t[0], cls) {
      SkipWhileIsSuffix(t[1..], cls);
    }
  }

  /** A character of a suffix occurs in the whole. */
  lemma InDrop(u: string, k: nat, x: char)
    requires k <= |u|
    ensures x in u[k..] ==> x in u
  {
    if x in u[k..] {
      var j :| 0 <= j < |u[k..]| && u[k..][j] == x;
      assert u[k + j] == x;
    }
  }

  /** A character left over by the greedy repetition occurs in its input. */
  lemma InSkip(t: string, cls: CharClass, x: char)
    ensures x in SkipWhile(t, cls) ==> x in t
  {
    SkipWhileIsSuffix(t, cls);
    InDrop(t, |t| - |SkipWhile(t, cls)|, x);
  }

  /** The token the greedy repetition consumes: the longest prefix of t in the class. */
  function TakeWhile(t: string, cls: CharClass): (tok: string)
    ensures AllIn(tok, cls) && |tok| + |SkipWhile(t, cls)| == |t|
  {
    var r := SkipWhile(t, cls);
    t[..|t| - |r|]
  }

  /**
   * The quoted text of the optional description group, at the front of q, together
   * with the closing `.*?\)` of the pattern: the text is kept only when it is
   * non-empty, its closing quote is there and a ')' follows that quote.
   */
  function QuotedAt(q: string): (r: Option<string>)
    ensures r.Some? ==> r.value != [] && AllIn(r.value, NotQuote) && ')' in q
  {
    if q == [] || q[0] != '"' then None
    else
      var text := TakeWhile(q[1..], NotQuote);
      var e := SkipWhile(q[1..], NotQuote);
      if text == [] || e == [] then None
      else if ')' in e[1..] then
        InDrop(e, 1, ')');
        InSkip(q[1..], NotQuote, ')');
        InDrop(q, 1, ')');
        Some(text)
      else None
  }

  /**
   * The optional group `white space, DESCRIPTION, white space, "text"` at the front
   * of t: when it does not match, or no ')' follows it, the matcher backtracks and
   * skips it.
   */
  function DescriptionAt(t: string): (r: Option<string>)
    ensures r.Some? ==> r.value != [] && AllIn(r.value, NotQuote) && ')' in t
  {
    var c := SkipWhile(t, Space);
    if |c| == |t| || !StartsWith(c, "DESCRIPTION") then None
    else
      var q := SkipWhile(c[11..], Space);
      if |q| == |c| - 11 then None
      else
        InSkip(c[11..], Space, ')');
        InDrop(c, 11, ')');
        InSkip(t, Space, ')');
        QuotedAt(q)
  }

  /** The pattern after the version token: the optional description and the closing ')'. */
  function MatchTail(t: string, name: string, version: string): (r: Option<Metadata>)
    ensures r.Some? <==> ')' in t
    ensures r.Some? ==> r.value.name == name && r.value.version == version
    ensures r.Some? ==> r.value.description == DescriptionAt(t).GetOr(DefaultDescription)
  {
    var desc := DescriptionAt(t);
    if desc.None? && ')' !in t then None
    else Some(Metadata(name, version, desc.GetOr(DefaultDescription)))
  }

  /** No ASCII upper-case letter: the name has been through str.lower. */
  predicate NoUpper(s: string) { forall k :: 0 <= k < |s| ==> !('A' <= s[k] <= 'Z') }

  /** What every successful match yields: three non-empty fields, tokens of the right classes. */
  predicate WellFormedMetadata(m: Metadata) {
    && m.name != [] && AllIn(m.name, NotSpace) && NoUpper(m.name)
    && m.version != [] && AllIn(m.version, VersionChar)
    && m.description != []
  }

  /** The pattern from the version keyword on, with the name already captured. */
  function MatchVersion(t3: string, name: string): (r: Option<Metadata>)
    requires name != [] && AllIn(name, NotSpace) && NoUpper(name)
    ensures r.Some? ==> WellFormedMetadata(r.value) && r.value.name == name
  {
    var t4 := SkipWhile(t3, Space);
    if |t4| == |t3| || !StartsWith(t4, "VERSION") then None
    else
      var t5 := SkipWhile(t4[7..], Space);
      if |t5| == |t4| - 7 then None
      else
        var version := TakeWhile(t5, VersionChar);
        if version == [] then None
        else MatchTail(SkipWhile(t5, VersionChar), name, version)
  }

  /** The pattern from the name token on. */
  function MatchName(t2: string): (r: Option<Metadata>)
    ensures r.Some? ==> WellFormedMetadata(r.value)
  {
    var name := TakeWhile(t2, NotSpace);
    if name == [] then None
    else
      MatchVersion(SkipWhile(t2, NotSpace), Lower(name))
  }

  /** The whole pattern matched at the front of t. */
  function Match(t: string): (r: Option<Metadata>)
    ensures r.Some? ==> StartsWith(t, "project") && WellFormedMetadata(r.value)
  {
    if !StartsWith(t, "project") then None
    else
      var t1 := SkipWhile(t[7..], Space);
      if t1 == [] || t1[0] != '(' then None
      else MatchName(SkipWhile(t1[1..], Space))
  }

  /** The matcher anchored at position i of s. */
  function MatchAt(s: string, i: nat): Option<Metadata>
    requires i <= |s|
  {
    Match(s[i..])
  }

  /** re.search: the leftmost position at or after i where the pattern matches. */
  function Search(s: string, i: nat): (r: Option<nat>)
    requires i <= |s|
    ensures r.Some? ==> i <= r.value <= |s| && MatchAt(s, r.value).Some?
    ensures r.Some? ==> forall k :: i <= k < r.value ==> MatchAt(s, k).None?
    ensures r.None? ==> forall k :: i <= k <= |s| ==> MatchAt(s, k).None?
    decreases |s| - i
  {
    if MatchAt(s, i).Some? then Some(i)
    else if i == |s| then None
    else Search(s, i + 1)
  }

  /**
   * The metadata of a CMakeLists text: the first project declaration in it, or
   * PatternNotFound; never partial metadata.
   */
  function Extract(s: string): (r: Result<Metadata, ExtractError>)
    ensures r.Ok? <==> exists k :: 0 <= k <= |s| && MatchAt(s, k).Some?
    ensures r.Ok? ==> exists k :: 0 <= k <= |s| && MatchAt(s, k) == Some(r.value)
                                    && forall k' :: 0 <= k' < k ==> MatchAt(s, k').None?
    ensures r.Ok? ==> WellFormedMetadata(r.value)
    ensures (forall k :: 0 <= k <= |s| ==> !StartsWith(s[k..], "project")) ==> r == Err(PatternNotFound)
  {
    match Search(s, 0)
    case Some(k) => Ok(MatchAt(s, k).value)
    case None => Err(PatternNotFound)
  }

  /** The greedy repetition consumes exactly a segment of the class followed by a character outside it. */
  lemma {:induction false} SkipOver(seg: string, rest: string, cls: CharClass)
    requires AllIn(seg, cls)
    requires rest == [] || !InClass(rest[0], cls)
    ensures SkipWhile(seg + rest, cls) == rest && TakeWhile(seg + rest, cls) == seg
  {
    if seg == [] {
      assert seg + rest == rest;
    } else {
      assert (seg + rest)[0] == seg[0];
      assert (seg + rest)[1..] == seg[1..] + rest;
      SkipOver(seg[1..], rest, cls);
    }
  }

  /** The text `project<ws0>(<ws1><name><ws2>VERSION<ws3><version><tail>`. */
  function Head(ws0: string, ws1: string, name: string, ws2: string, ws3: string, version: string, tail: string): string {
    "project" + (ws0 + ("(" + (ws1 + (name + VersionClause(ws2, ws3, version, tail)))))
  }

  /** The text `<ws2>VERSION<ws3><version><tail>`. */
  function VersionClause(ws2: string, ws3: string, version: string, tail: string): string {
    ws2 + ("VERSION" + (ws3 + (version + tail)))
  }

  /** The keyword, the parenthesis and the white space around it lead to the name token. */
  lemma {:induction false} OpeningMatches(ws0: string, ws1: string, rest: string)
    requires AllIn(ws0, Space) && AllIn(ws1, Space)
    requires rest == [] || !IsSpace(rest[0])
    ensures Match("project" + (ws0 + ("(" + (ws1 + rest)))) == MatchName(rest)
  {
    var t2 := ws1 + rest;
    var t1 := ws0 + ("(" + t2);
    assert StartsWith("project" + t1, "project") && ("project" + t1)[7..] == t1;
    SkipOver(ws0, "(" + t2, Space);
    assert ("(" + t2)[1..] == t2;
    SkipOver(ws1, rest, Space);
  }

  /** The name token is captured whole and lower-cased. */
  lemma {:induction false} NameMatches(name: string, rest: string)
    requires name != [] && AllIn(name, NotSpace)
    requires rest == [] || IsSpace(rest[0])
    ensures MatchName(name + rest) == MatchVersion(rest, Lower(name))
  {
    SkipOver(name, rest, NotSpace);
  }

  /** The version keyword and the version token, captured whole, lead to the tail. */
  lemma {:induction false} VersionMatches(ws2: string, ws3: string, version: string, tail: string, name: string)
    requires name != [] && AllIn(name, NotSpace) && NoUpper(name)
    requires AllIn(ws2, Space) && ws2 != [] && AllIn(ws3, Space) && ws3 != []
    requires version != [] && AllIn(version, VersionChar)
    requires tail == [] || !InClass(tail[0], VersionChar)
    ensures MatchVersion(VersionClause(ws2, ws3, version, tail), name) == MatchTail(tail, name, version)
  {
    var t5 := ws3 + (version + tail);
    SkipOver(ws2, "VERSION" + t5, Space);
    assert StartsWith("VERSION" + t5, "VERSION") && ("VERSION" + t5)[7..] == t5;
    SkipOver(ws3, version + tail, Space);
    SkipOver(version, tail, VersionChar);
  }

  /**
   * At a well-formed head the matcher captures the whole name token (lower-cased)
   * and the whole version token, whatever white space or line breaks separate them,
   * and goes on with the tail.
   */
  lemma HeadMatches(ws0: string, ws1: string, name: string, ws2: string,
                    ws3: string, version: string, tail: string)
    requires AllIn(ws0, Space) && AllIn(ws1, Space) && AllIn(ws2, Space) && ws2 != [] && AllIn(ws3, Space) && ws3 != []
    requires name != [] && AllIn(name, NotSpace) && version != [] && AllIn(version, VersionChar)
    requires tail == [] || !InClass(tail[0], VersionChar)
    ensures Match(Head(ws0, ws1, name, ws2, ws3, version, tail)) == MatchTail(tail, Lower(name), version)
  {
    var vc := VersionClause(ws2, ws3, version, tail);
    OpeningMatches(ws0, ws1, name + vc);
    NameMatches(name, vc);
    VersionMatches(ws2, ws3, version, tail, Lower(name));
  }

  /** The text `"<text>"<rest>`. */
  function Quoted(text: string, rest: string): string {
    "\"" + (text + ("\"" + rest))
  }

  /** The clause `<ws4>DESCRIPTION<ws5>"<text>"<rest>`. */
  function DescriptionClause(ws4: string, ws5: string, text: string, rest: string): string {
    ws4 + ("DESCRIPTION" + (ws5 + Quoted(text, rest)))
  }

  /** The keyword of the description group and the white space around it lead to the quote. */
  lemma {:induction false} ClauseReachesQuote(ws4: string, ws5: string, q: string)
    requires AllIn(ws4, Space) && ws4 != [] && AllIn(ws5, Space) && ws5 != []
    requires q == [] || !IsSpace(q[0])
    ensures DescriptionAt(ws4 + ("DESCRIPTION" + (ws5 + q))) == QuotedAt(q)
  {
    var t2 := ws5 + q;
    SkipOver(ws4, "DESCRIPTION" + t2, Space);
    assert StartsWith("DESCRIPTION" + t2, "DESCRIPTION") && ("DESCRIPTION" + t2)[11..] == t2;
    SkipOver(ws5, q, Space);
  }

  /** Non-empty quoted text followed, after its closing quote, by a ')' is kept. */
  lemma {:induction false} QuotedKept(text: string, rest: string)
    requires text != [] && AllIn(text, NotQuote)
    requires ')' in rest
    ensures QuotedAt(Quoted(text, rest)) == Some(text)
  {
    var q := Quoted(text, rest);
    assert q[1..] == text + ("\"" + rest);
    SkipOver(text, "\"" + rest, NotQuote);
    assert ("\"" + rest)[1..] == rest;
  }

  /** Quoted text with no ')' after its closing quote is dropped. */
  lemma {:induction false} QuotedUnclosed(text: string, rest: string)
    requires AllIn(text, NotQuote)
    requires ')' !in rest
    ensures QuotedAt(Quoted(text, rest)) == None
  {
    var q := Quoted(text, rest);
    assert q[1..] == text + ("\"" + rest);
    SkipOver(text, "\"" + rest, NotQuote);
    assert ("\"" + rest)[1..] == rest;
  }

  /** Empty quotes do not match the non-empty quoted group. */
  lemma {:induction false} QuotedEmpty(rest: string)
    ensures QuotedAt(Quoted("", rest)) == None
  {
    var q := Quoted("", rest);
    assert q[1..] == "\"" + rest;
    SkipOver("", "\"" + rest, NotQuote);
  }

  /** A description clause with non-empty quoted text and a ')' after it yields that text. */
  lemma DescribedTail(ws4: string, ws5: string, text: string, rest: string)
    requires AllIn(ws4, Space) && ws4 != [] && AllIn(ws5, Space) && ws5 != []
    requires text != [] && AllIn(text, NotQuote)
    requires ')' in rest
    ensures DescriptionAt(DescriptionClause(ws4, ws5, text, rest)) == Some(text)
  {
    ClauseReachesQuote(ws4, ws5, Quoted(text, rest));
    QuotedKept(text, rest);
  }

  /** With empty quotes the group is skipped and the description defaults. */
  lemma EmptyQuotesTail(ws4: string, ws5: string, rest: string)
    requires AllIn(ws4, Space) && ws4 != [] && AllIn(ws5, Space) && ws5 != []
    ensures DescriptionAt(DescriptionClause(ws4, ws5, "", rest)) == None
  {
    ClauseReachesQuote(ws4, ws5, Quoted("", rest));
    QuotedEmpty(rest);
  }

  /**
   * When no ')' follows the closing quote, the group cannot be kept: the matcher
   * backtracks past it, so the description is dropped even though it was written.
   */
  lemma UnclosedAfterDescriptionTail(ws4: string, ws5: string, text: string, rest: string)
    requires AllIn(ws4, Space) && ws4 != [] && AllIn(ws5, Space) && ws5 != []
    requires AllIn(text, NotQuote)
    requires ')' !in rest
    ensures DescriptionAt(DescriptionClause(ws4, ws5, text, rest)) == None
  {
    ClauseReachesQuote(ws4, ws5, Quoted(text, rest));
    QuotedUnclosed(text, rest);
  }

  /** A text is the token the greedy repetition consumes followed by what it leaves. */
  lemma SkipSplit(t: string, cls: CharClass)
    ensures t == TakeWhile(t, cls) + SkipWhile(t, cls)
  {
    SkipWhileIsSuffix(t, cls);
  }

  /** A kept quoted text comes from `"<text>"` with a ')' somewhere after the closing quote. */
  lemma QuotedShape(q: string)
    ensures QuotedAt(q).Some? ==> exists rest :: ')' in rest && q == Quoted(QuotedAt(q).value, rest)
  {
    if QuotedAt(q).Some? {
      var text, e := TakeWhile(q[1..], NotQuote), SkipWhile(q[1..], NotQuote);
      SkipSplit(q[1..], NotQuote);
      QuoteJoin(q, text, e);
    }
  }

  /** An opening quote, the text, and a rest that starts with the closing quote make `"<text>"<rest>`. */
  lemma QuoteJoin(q: string, text: string, e: string)
    requires q != [] && q[0] == '"' && q[1..] == text + e && e != [] && e[0] == '"'
    ensures q == Quoted(text, e[1..])
  {
    assert e == "\"" + e[1..];
    assert q == [q[0]] + q[1..];
  }

  /** A tail whose first non-space characters are not `DESCRIPTION` has no description, so it gets the default one. */
  lemma DescriptionAtNone(t: string)
    ensures !StartsWith(SkipWhile(t, Space), "DESCRIPTION") ==> DescriptionAt(t) == None
  {
  }

  /** White space, the keyword, white space and a kept quoted text make a whole description clause. */
  lemma ClauseWitness(t: string, ws4: string, ws5: string, q: string, text: string)
    requires AllIn(ws4, Space) && ws4 != [] && AllIn(ws5, Space) && ws5 != []
    requires t == ws4 + ("DESCRIPTION" + (ws5 + q)) && QuotedAt(q) == Some(text)
    ensures exists ws4, ws5, rest :: AllIn(ws4, Space) && ws4 != [] && AllIn(ws5, Space) && ws5 != []
                                    && ')' in rest && t == DescriptionClause(ws4, ws5, text, rest)
  {
    QuotedShape(q);
    var rest :| ')' in rest && q == Quoted(text, rest);
    assert t == DescriptionClause(ws4, ws5, text, rest);
  }

  /**
   * The converse of DescribedTail: a description is found only in a clause
   * `<ws4>DESCRIPTION<ws5>"<text>"<rest>` with non-empty white space around the
   * keyword and a ')' in rest.
   */
  lemma DescriptionAtShape(t: string)
    ensures DescriptionAt(t).Some? ==>
              exists ws4, ws5, rest :: AllIn(ws4, Space) && ws4 != [] && AllIn(ws5, Space) && ws5 != []
                                       && ')' in rest && t == DescriptionClause(ws4, ws5, DescriptionAt(t).value, rest)
  {
    if DescriptionAt(t).Some? {
      var text := DescriptionAt(t).value;
      var c, ws4 := SkipWhile(t, Space), TakeWhile(t, Space);
      SkipSplit(t, Space);
      var c2 := c[11..];
      assert c == "DESCRIPTION" + c2;
      var ws5, q := TakeWhile(c2, Space), SkipWhile(c2, Space);
      SkipSplit(c2, Space);
      ClauseWitness(t, ws4, ws5, q, text);
    }
  }

  /** When the pattern first matches at p, extraction returns that match. */
  lemma FirstOccurrenceWins(s: string, p: nat)
    requires p <= |s| && MatchAt(s, p).Some?
    requires forall k :: 0 <= k < p ==> !StartsWith(s[k..], "project")
    ensures Extract(s) == Ok(MatchAt(s, p).value)
  {
    var r := Search(s, 0);
    assert r.Some?;
    assert r.value == p;
  }
  /** The matcher never succeeds without a ')' somewhere after the keyword. */
  lemma MatchNeedsParenthesis(t: string)
    requires Match(t).Some?
    ensures ')' in t
  {
    var t1 := SkipWhile(t[7..], Space);
    var t2 := SkipWhile(t1[1..], Space);
    var t3 := SkipWhile(t2, NotSpace);
    var t4 := SkipWhile(t3, Space);
    var t5 := SkipWhile(t4[7..], Space);
    var t6 := SkipWhile(t5, VersionChar);
    assert ')' in t6;
    InSkip(t5, VersionChar, ')');
    InSkip(t4[7..], Space, ')');
    InDrop(t4, 7, ')');
    InSkip(t3, Space, ')');
    InSkip(t2, NotSpace, ')');
    InSkip(t1[1..], Space, ')');
    InDrop(t1, 1, ')');
    InSkip(t[7..], Space, ')');
    InDrop(t, 7, ')');
  }

  /** A text without any ')' holds no project declaration the pattern accepts. */
  lemma NoClosingParenthesis(s: string)
    requires ')' !in s
    ensures Extract(s) == Err(PatternNotFound)
  {
    if Extract(s).Ok? {
      var k :| 0 <= k <= |s| && MatchAt(s, k).Some?;
      InDrop(s, k, ')');
      MatchNeedsParenthesis(s[k..]);
    }
  }

  /**
   * A text whose first `project` keyword opens a well-formed declaration closed by
   * a ')' yields the lower-cased name, the version and the description (or the
   * default one) of that declaration.
   */
  lemma ExtractFirstDeclaration(prefix: string, ws0: string, ws1: string, name: string, ws2: string,
                                ws3: string, version: string, tail: string)
    requires AllIn(ws0, Space) && AllIn(ws1, Space) && AllIn(ws2, Space) && ws2 != [] && AllIn(ws3, Space) && ws3 != []
    requires name != [] && AllIn(name, NotSpace) && version != [] && AllIn(version, VersionChar)
    requires tail == [] || !InClass(tail[0], VersionChar)
    requires ')' in tail
    requires forall k :: 0 <= k < |prefix| ==> !StartsWith((prefix + Head(ws0, ws1, name, ws2, ws3, version, tail))[k..], "project")
    ensures Extract(prefix + Head(ws0, ws1, name, ws2, ws3, version, tail))
            == Ok(Metadata(Lower(name), version, DescriptionAt(tail).GetOr(DefaultDescription)))
  {
    var s := prefix + Head(ws0, ws1, name, ws2, ws3, version, tail);
    assert s[|prefix|..] == Head(ws0, ws1, name, ws2, ws3, version, tail);
    HeadMatches(ws0, ws1, name, ws2, ws3, version, tail);
    FirstOccurrenceWins(s, |prefix|);
  }
}
