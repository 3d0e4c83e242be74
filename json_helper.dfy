/**
  Response repair (Utils/JsonHelper.cs): pulls a JSON object out of free-form oracle text
  and heals a truncated one.

  The JSON reader itself is foreign: every function takes `parses`, which answers whether
  `JObject.Parse` accepts a string. The fenced-block regular expression
  "```(?:json)?\s*(?<json>{.*?})\s*```" (single-line mode) is written out below as the
  backtracking engine resolves it: the leftmost start, then the optional `json` tag, then
  the whitespace, then the shortest `{...}` that whitespace and a closing fence follow.
 */
module JsonHelper {
  import opened Wrappers
  import opened Text

  const Fence: string := "```"
  const JsonTag: string := "json"
  const EntryEnd: string := "},"

  /** Three backquotes start at `k`. */
  predicate FenceAt(s: string, k: nat) {
    k + 3 <= |s| && s[k] == '`' && s[k + 1] == '`' && s[k + 2] == '`'
  }

  /** No three backquotes in a row anywhere in `s`. */
  ghost predicate NoFence(s: string) {
    forall k: nat :: !FenceAt(s, k)
  }

  /** A text without backquotes has no fence. */
  lemma NoBackquoteNoFence(s: string)
    requires '`' !in s
    ensures NoFence(s)
  {
    forall k: nat ensures !FenceAt(s, k) {
      if k < |s| {
        assert s[k] in s;
      }
    }
  }

  /** The tail of a text without a fence has none. */
  lemma NoFenceInTail(s: string, i: nat)
    requires i <= |s| && NoFence(s)
    ensures NoFence(s[i..])
  {
    forall k: nat ensures !FenceAt(s[i..], k) {
      assert !FenceAt(s, i + k);
    }
  }

  /** A fence of `t` that lies inside the stretch `t[lo..lo + |s|] == s` is a fence of `s`. */
  lemma FenceWithin(t: string, lo: nat, s: string, m: nat)
    requires lo + |s| <= |t| && t[lo..lo + |s|] == s
    requires lo <= m && m + 3 <= lo + |s|
    ensures FenceAt(t, m) ==> FenceAt(s, m - lo)
  {
    assert t[m] == s[m - lo] && t[m + 1] == s[m + 1 - lo] && t[m + 2] == s[m + 2 - lo];
  }

  /** The optional tag `json` starts at `k`. */
  predicate TagAt(s: string, k: nat) {
    k + 4 <= |s| && s[k] == 'j' && s[k + 1] == 's' && s[k + 2] == 'o' && s[k + 3] == 'n'
  }

  /**
    Where the head "```(?:json)?\s*{" of the pattern matches at `i`, the position of its `{`.
    Only one way through the optional tag can reach a `{`, so no other alternative exists.
   */
  function OpeningAt(s: string, i: nat): (r: Option<nat>)
    ensures r.Some? ==> i + 3 <= r.value < |s| && s[r.value] == '{'
  {
    if !FenceAt(s, i) then None
    else
      var b := if TagAt(s, i + 3) then i + 7 else i + 3;
      var j := SkipWhiteSpace(s, b);
      if j < |s| && s[j] == '{' then Some(j) else None
  }

  /** The group can end with the `}` at `k`: whitespace and then the closing fence follow it. */
  predicate ClosesAt(s: string, k: nat) {
    k < |s| && s[k] == '}' && FenceAt(s, SkipWhiteSpace(s, k + 1))
  }

  /** The lazy `.*?}`: the first position from `k` on where the group can end. */
  function FirstClose(s: string, k: nat): (r: Option<nat>)
    ensures r.Some? ==> k <= r.value < |s| && ClosesAt(s, r.value)
    decreases |s| - k
  {
    if k >= |s| then None
    else if ClosesAt(s, k) then Some(k)
    else FirstClose(s, k + 1)
  }

  /** FirstClose finds the first place the group can end, and only fails when there is none. */
  lemma {:induction false} FirstCloseIsFirst(s: string, k: nat)
    ensures FirstClose(s, k).Some? ==> forall m :: k <= m < FirstClose(s, k).value ==> !ClosesAt(s, m)
    decreases |s| - k
  {
    if k < |s| && !ClosesAt(s, k) {
      FirstCloseIsFirst(s, k + 1);
    }
  }

  /** The whole pattern matches with its start at `i`. */
  predicate MatchesAt(s: string, i: nat) {
    OpeningAt(s, i).Some? && FirstClose(s, OpeningAt(s, i).value + 1).Some?
  }

  /** A match: where it starts, and the positions of the `{` and `}` that delimit the group. */
  datatype FenceMatch = FenceMatch(start: nat, open: nat, close: nat)

  /** `Regex.Match` from position `i`: the leftmost start at which the pattern matches. */
  function MatchFrom(s: string, i: nat): (r: Option<FenceMatch>)
    ensures r.Some? ==> i <= r.value.start && OpeningAt(s, r.value.start) == Some(r.value.open)
    ensures r.Some? ==> FirstClose(s, r.value.open + 1) == Some(r.value.close)
    decreases |s| - i
  {
    if i >= |s| then None
    else if MatchesAt(s, i) then
      Some(FenceMatch(i, OpeningAt(s, i).value, FirstClose(s, OpeningAt(s, i).value + 1).value))
    else MatchFrom(s, i + 1)
  }

  /** MatchFrom finds the leftmost match, and only fails when there is none. */
  lemma {:induction false} MatchFromIsLeftmost(s: string, i: nat)
    ensures MatchFrom(s, i).Some? ==> forall m :: i <= m < MatchFrom(s, i).value.start ==> !MatchesAt(s, m)
    decreases |s| - i
  {
    if i < |s| && !MatchesAt(s, i) {
      MatchFromSkips(s, i);
      MatchFromIsLeftmost(s, i + 1);
    }
  }

  /** No match at `i`: the search goes on from `i + 1`. */
  lemma MatchFromSkips(s: string, i: nat)
    requires i < |s| && !MatchesAt(s, i)
    ensures MatchFrom(s, i) == MatchFrom(s, i + 1)
  {
  }

  /** MatchFrom fails only when the pattern matches nowhere. */
  lemma {:induction false} MatchFromFailsOnlyWithoutMatch(s: string, i: nat)
    ensures MatchFrom(s, i).None? ==> forall m :: i <= m ==> !MatchesAt(s, m)
    decreases |s| - i
  {
    if i < |s| && !MatchesAt(s, i) {
      MatchFromSkips(s, i);
      MatchFromFailsOnlyWithoutMatch(s, i + 1);
    }
  }

  /** A match with no match in front of it is the one MatchFrom finds. */
  lemma {:induction false} MatchFromFinds(s: string, i: nat, a: nat)
    requires i <= a && MatchesAt(s, a)
    requires forall m :: i <= m < a ==> !MatchesAt(s, m)
    ensures MatchFrom(s, i).Some? && MatchFrom(s, i).value.start == a
    decreases a - i
  {
    if i < a {
      assert !MatchesAt(s, i);
      MatchFromSkips(s, i);
      MatchFromFinds(s, i + 1, a);
    }
  }

  /** The first place the group can end, past `k`, is the one FirstClose finds. */
  lemma {:induction false} FirstCloseFinds(s: string, k: nat, e: nat)
    requires k <= e && ClosesAt(s, e)
    requires forall m :: k <= m < e ==> !ClosesAt(s, m)
    ensures FirstClose(s, k) == Some(e)
    decreases e - k
  {
    if k < e {
      FirstCloseFinds(s, k + 1, e);
    }
  }

  /**
    ExtractJsonStringFromMarkdown: the group of the leftmost fenced block, kept when it
    starts (after whitespace) with `{` -- which it always does.
   */
  function ExtractJsonStringFromMarkdown(response: string): (r: Option<string>)
    ensures r.Some? ==> 2 <= |r.value| <= |response| && r.value[0] == '{' && r.value[|r.value| - 1] == '}'
    ensures r.None? <==> MatchFrom(response, 0).None?
  {
    match MatchFrom(response, 0)
    case None => None
    case Some(m) =>
      var group := response[m.open..m.close + 1];
      assert group[0] == '{' && group[|group| - 1] == '}';
      OpensWithBrace(group);
      if StartsWith(TrimStart(group), "{") then Some(group) else None
  }

  /** No fenced candidate exactly when the pattern matches nowhere. */
  lemma NoCandidateMeansNoMatch(response: string)
    ensures ExtractJsonStringFromMarkdown(response).None? <==> forall i: nat :: !MatchesAt(response, i)
  {
    MatchFromFailsOnlyWithoutMatch(response, 0);
    if MatchFrom(response, 0).Some? {
      assert MatchesAt(response, MatchFrom(response, 0).value.start);
    }
  }

  /**
    The fenced candidate is the group of the leftmost match: the shortest `{...}` after the
    opening fence that whitespace and a closing fence follow.
   */
  lemma MarkdownCandidateIsShortest(response: string)
    requires MatchFrom(response, 0).Some?
    ensures var m := MatchFrom(response, 0).value;
      && ExtractJsonStringFromMarkdown(response).value == response[m.open..m.close + 1]
      && OpeningAt(response, m.start) == Some(m.open)
      && ClosesAt(response, m.close)
      && (forall k :: m.open < k < m.close ==> !ClosesAt(response, k))
      && (forall k :: 0 <= k < m.start ==> !MatchesAt(response, k))
  {
    var m := MatchFrom(response, 0).value;
    GroupOfMatch(response, m.start, m.open, m.close);
    MatchFromIsLeftmost(response, 0);
    GroupIsShortest(response, m);
  }

  /** The group of a match ends at the first `}` after its `{` that can end it. */
  lemma GroupIsShortest(s: string, m: FenceMatch)
    requires FirstClose(s, m.open + 1) == Some(m.close)
    ensures ClosesAt(s, m.close) && forall k :: m.open < k < m.close ==> !ClosesAt(s, k)
  {
    FirstCloseIsFirst(s, m.open + 1);
  }

  /** A text that opens with `{` still does so after `TrimStart`. */
  lemma OpensWithBrace(s: string)
    requires s != [] && s[0] == '{'
    ensures StartsWith(TrimStart(s), "{")
  {
    assert SkipWhiteSpace(s, 0) == 0;
    assert s[0..] == s;
    assert s[..1] == "{";
  }

  /** The text from `u`'s start through its last `}`, or all of `u` when it has none. */
  function CutAtLastBrace(u: string): (r: string)
    ensures |r| <= |u|
    ensures '}' in u ==> r != [] && r[|r| - 1] == '}'
    ensures '}' !in u ==> r == u
  {
    match LastIndexOf(u, '}')
    case None => u
    case Some(l) => u[..l + 1]
  }

  /** The cut is a prefix of `u`, and no `}` follows it. */
  lemma CutAtLastBraceIsLast(u: string)
    ensures StartsWith(u, CutAtLastBrace(u)) && '}' !in u[|CutAtLastBrace(u)|..]
  {
  }

  /**
    The fallback candidate when no fenced block matches: it runs from the first `{` through
    the last `}` after it, or to the end when no `}` follows; None when there is no `{`.
   */
  function BraceCandidate(t: string): (r: Option<string>)
    ensures r.None? <==> '{' !in t
    ensures r.Some? ==> r.value != [] && r.value[0] == '{' && |r.value| <= |t|
  {
    match IndexOf(t, '{')
    case None => None
    case Some(f) =>
      var r := CutAtLastBrace(t[f..]);
      assert r[0] == '{';
      Some(r)
  }

  /**
    The fallback candidate is the stretch of `t` that starts at its first `{` and ends at the
    last `}` after it, or at the end of `t` when no `}` follows.
   */
  lemma BraceCandidateSpan(t: string)
    requires '{' in t
    ensures var f := IndexOf(t, '{').value; var r := BraceCandidate(t).value;
      && '{' !in t[..f] && f + |r| <= |t| && t[f..f + |r|] == r
      && ('}' in t[f..] ==> r[|r| - 1] == '}' && '}' !in t[f + |r|..])
      && ('}' !in t[f..] ==> f + |r| == |t|)
  {
    var f := IndexOf(t, '{').value;
    var r := CutAtLastBrace(t[f..]);
    assert BraceCandidate(t) == Some(r);
    CutSpan(t, f, r);
  }

  /** Cutting the tail of `t` from `f` at its last `}` keeps a stretch of `t` that starts at `f`. */
  lemma CutSpan(t: string, f: nat, r: string)
    requires f <= |t| && r == CutAtLastBrace(t[f..])
    ensures f + |r| <= |t| && t[f..f + |r|] == r
      && ('}' in t[f..] ==> '}' !in t[f + |r|..])
      && ('}' !in t[f..] ==> f + |r| == |t|)
  {
    var u := t[f..];
    CutAtLastBraceIsLast(u);
    assert t[f..f + |r|] == u[..|r|];
    assert u[|r|..] == t[f + |r|..];
  }

  /**
    Strategy 2 of FixTruncatedJson: keep the text up to and including the `}` of the last
    `},`, close it with one `}`, and cut it to the first `{` if it does not start with one.
    None when there is no `},`, or when the cut has no `{` at all.
   */
  function CutAfterLastEntry(c: string): (r: Option<string>)
    ensures r.Some? ==> LastIndexOfString(c, EntryEnd).Some? && |r.value| <= |c|
    ensures r.Some? ==> StartsWith(TrimStart(r.value), "{")
  {
    match LastIndexOfString(c, EntryEnd)
    case None => None
    case Some(k) =>
      var p := c[..k + 1] + "}";
      assert |p| == k + 2 <= |c|;
      if StartsWith(TrimStart(p), "{") then Some(p)
      else
        match IndexOf(p, '{')
        case None => None
        case Some(b) =>
          OpensWithBrace(p[b..]);
          Some(p[b..])
  }

  /** A strategy-2 cut is a tail of the text through the `}` of the last `},`, closed with `}`. */
  lemma CutAfterLastEntryIsTail(c: string)
    requires CutAfterLastEntry(c).Some?
    ensures var k := LastIndexOfString(c, EntryEnd).value;
      EndsWith(c[..k + 1] + "}", CutAfterLastEntry(c).value)
  {
  }

  /**
    FixTruncatedJson: the trimmed candidate if it parses; else the strategy-2 cut if that
    parses; else, for a candidate that opens with `{` and does not end with `}`, the
    candidate plus one `}` if that parses; else None. Nothing it returns fails to parse.
   */
  function FixTruncatedJson(js: string, parses: string -> bool): (r: Option<string>)
    ensures r.Some? ==> parses(r.value)
    ensures r.Some? ==> |r.value| <= |Trim(js)| + 1
    ensures js != [] && parses(Trim(js)) ==> r == Some(Trim(js))
    ensures js == [] ==> r.None?
  {
    if js == [] then None
    else
      var c := Trim(js);
      if parses(c) then Some(c)
      else
        var cut := CutAfterLastEntry(c);
        if cut.Some? && parses(cut.value) then cut
        else if StartsWith(c, "{") && !EndsWith(c, "}") && parses(c + "}") then Some(c + "}")
        else None
  }

  /**
    The three ways FixTruncatedJson can succeed, in the order it tries them: the trimmed
    candidate itself, the strategy-2 cut, or -- only for a candidate that starts with `{`
    and does not end with `}` -- the candidate with exactly one `}` appended.
   */
  lemma RepairOutcomes(js: string, parses: string -> bool)
    ensures var r := FixTruncatedJson(js, parses); var c := Trim(js);
      r.Some? ==>
        || r.value == c
        || (!parses(c) && r == CutAfterLastEntry(c))
        || (!parses(c) && StartsWith(c, "{") && !EndsWith(c, "}") && r.value == c + "}")
  {
  }

  /**
    A trimmed candidate that fails to parse but whose last complete entry (ending in `},`)
    closes into a valid object is repaired to exactly that prefix plus `}`: every entry
    after it is dropped.
   */
  lemma EntryCutKeepsCompleteEntries(c: string, parses: string -> bool)
    requires c != [] && c[0] == '{' && !IsWhiteSpace(c[|c| - 1])
    requires !parses(c)
    requires LastIndexOfString(c, EntryEnd).Some?
    requires parses(c[..LastIndexOfString(c, EntryEnd).value + 1] + "}")
    ensures FixTruncatedJson(c, parses) == Some(c[..LastIndexOfString(c, EntryEnd).value + 1] + "}")
  {
    TrimUnchanged(c);
    var k := LastIndexOfString(c, EntryEnd).value;
    var p := c[..k + 1] + "}";
    assert p[0] == '{';
    OpensWithBrace(p);
  }

  /**
    ExtractAndFixJsonFromResponse, as written: an empty response gives None; the trimmed
    response's fenced block is the candidate if there is one, otherwise the brace slice;
    then FixTruncatedJson. Every non-None result parses, and none is more than one
    character longer than the response.
   */
  function ExtractAndFixJsonFromResponse(aiResponse: string, parses: string -> bool): (r: Option<string>)
    ensures aiResponse == [] ==> r.None?
    ensures '{' !in aiResponse ==> r.None?
    ensures r.Some? ==> parses(r.value)
    ensures r.Some? ==> |r.value| <= |aiResponse| + 1
  {
    if aiResponse == [] then None
    else
      var t := Trim(aiResponse);
      var extracted := ExtractJsonStringFromMarkdown(t);
      if extracted.Some? && extracted.value != [] then
        FixTruncatedJson(extracted.value, parses)
      else
        match BraceCandidate(t)
        case None => None
        case Some(candidate) =>
          TrimKeepsOnlyItsInput(aiResponse, '{');
          FixTruncatedJson(candidate, parses)
  }

  /**
    The repair as evidently intended. A fenced candidate, or a brace slice that parses as
    it is, is handled as before. A brace slice that does not parse was cut at its last `}`,
    which drops the `,` after the last complete entry of a truncated response, so the
    repairs are tried first on the text from the first `{` to the end, where every `},` is
    still present, and only then on the slice.
   */
  function ExtractAndRepairTruncated(aiResponse: string, parses: string -> bool): (r: Option<string>)
    ensures aiResponse == [] ==> r.None?
    ensures '{' !in aiResponse ==> r.None?
    ensures r.Some? ==> parses(r.value)
    ensures r.Some? ==> |r.value| <= |aiResponse| + 1
    ensures ExtractAndFixJsonFromResponse(aiResponse, parses).Some? ==> r.Some?
    ensures ExtractJsonStringFromMarkdown(Trim(aiResponse)).Some? ==>
      r == ExtractAndFixJsonFromResponse(aiResponse, parses)
    ensures BraceCandidate(Trim(aiResponse)).Some? && parses(Trim(BraceCandidate(Trim(aiResponse)).value)) ==>
      r == ExtractAndFixJsonFromResponse(aiResponse, parses)
  {
    if aiResponse == [] then None
    else
      var t := Trim(aiResponse);
      var extracted := ExtractJsonStringFromMarkdown(t);
      if extracted.Some? && extracted.value != [] then
        FixTruncatedJson(extracted.value, parses)
      else
        match IndexOf(t, '{')
        case None => None
        case Some(f) =>
          var slice := BraceCandidate(t).value;
          TrimKeepsOnlyItsInput(aiResponse, '{');
          if parses(Trim(slice)) then FixTruncatedJson(slice, parses)
          else
            var whole := FixTruncatedJson(t[f..], parses);
            if whole.Some? then whole else FixTruncatedJson(slice, parses)
  }

  /** A fenced block: fence, optional tag, whitespace, the payload, whitespace, fence. */
  function FencedBlock(tag: string, ws1: string, payload: string, ws2: string): (r: string)
    ensures |r| >= 6 && r[0] == '`' && r[|r| - 1] == '`'
  {
    Fence + tag + ws1 + payload + ws2 + Fence
  }

  /**
    Round trip: a valid object without a fence inside, wrapped in a fenced block (with or
    without the `json` tag) after prose that has no fence, comes back unchanged. Single
    backquotes may appear anywhere, and the text after the block is unrestricted.
   */
  lemma FencedPayloadRoundTrip(pre: string, tag: string, ws1: string, payload: string, ws2: string,
                               post: string, parses: string -> bool)
    requires tag == JsonTag || tag == []
    requires AllWhiteSpace(ws1) && AllWhiteSpace(ws2)
    requires NoFence(pre) && NoFence(payload)
    requires |payload| >= 2 && payload[0] == '{' && payload[|payload| - 1] == '}'
    requires parses(payload)
    ensures ExtractAndFixJsonFromResponse(pre + FencedBlock(tag, ws1, payload, ws2) + post, parses)
         == Some(payload)
  {
    MarkdownRoundTrip(pre, tag, ws1, payload, ws2, post);
    RepairOfCandidate(pre + FencedBlock(tag, ws1, payload, ws2) + post, payload, parses);
  }

  /** The fenced-block extraction alone gives back the wrapped object. */
  lemma MarkdownRoundTrip(pre: string, tag: string, ws1: string, payload: string, ws2: string, post: string)
    requires tag == JsonTag || tag == []
    requires AllWhiteSpace(ws1) && AllWhiteSpace(ws2)
    requires NoFence(pre) && NoFence(payload)
    requires |payload| >= 2 && payload[0] == '{' && payload[|payload| - 1] == '}'
    ensures ExtractJsonStringFromMarkdown(Trim(pre + FencedBlock(tag, ws1, payload, ws2) + post)) == Some(payload)
  {
    var t := Trim(pre + FencedBlock(tag, ws1, payload, ws2) + post);
    var a := |TrimStart(pre)|;
    var b := a + 3 + |tag|;
    var o := b + |ws1|;
    var f := o + |payload| + |ws2|;
    TrimmedResponseLayout(t, a, b, o, f, pre, tag, ws1, payload, ws2, post);
    FencedCandidateOf(t, a, b, o, f, payload);
  }

  /** Inline backquotes in the prose do not disturb the extraction of a tagged block. */
  lemma InlineBackquotesKept(parses: string -> bool)
    requires parses("{}")
    ensures ExtractAndFixJsonFromResponse("see `a`: ```json\n{}\n```", parses) == Some("{}")
  {
    var pre := "see `a`: ";
    assert NoFence(pre) by {
      assert pre[3] == ' ' && pre[5] == 'a' && pre[7] == ':';
      forall k: nat ensures !FenceAt(pre, k) {
      }
    }
    NoBackquoteNoFence("{}");
    AllWhiteSpaceOfNewline();
    assert pre + FencedBlock(JsonTag, "\n", "{}", "\n") + "" == "see `a`: ```json\n{}\n```";
    FencedPayloadRoundTrip(pre, JsonTag, "\n", "{}", "\n", "", parses);
  }

  /** A line break is whitespace. */
  lemma AllWhiteSpaceOfNewline()
    ensures AllWhiteSpace("\n")
  {
  }

  /**
    `t` reads, in order: text with no fence of its own up to `a`, a fence, the tag `json` or
    nothing up to `b`, whitespace up to `o`, the object `g` (a `{...}` without a fence),
    whitespace up to `f`, and a fence.
   */
  ghost predicate FencedLayout(t: string, a: nat, b: nat, o: nat, f: nat, g: string) {
    && a + 3 <= b <= o && |g| >= 2 && o + |g| <= f && f + 3 <= |t|
    && (forall m: nat :: m + 3 <= a ==> !FenceAt(t, m)) && FenceAt(t, a) && FenceAt(t, f)
    && ((b == a + 7 && TagAt(t, a + 3)) || b == a + 3)
    && AllWhiteSpace(t[b..o]) && AllWhiteSpace(t[o + |g|..f])
    && t[o..o + |g|] == g && NoFence(g) && g[0] == '{' && g[|g| - 1] == '}'
  }

  /** A fenced block between prose has the fenced layout, with the payload as its object. */
  lemma BlockLayout(t: string, a: nat, b: nat, o: nat, f: nat,
                    pre: string, tag: string, ws1: string, payload: string, ws2: string, post: string)
    requires t == pre + FencedBlock(tag, ws1, payload, ws2) + post
    requires a == |pre| && b == a + 3 + |tag| && o == b + |ws1| && f == o + |payload| + |ws2|
    requires tag == JsonTag || tag == []
    requires AllWhiteSpace(ws1) && AllWhiteSpace(ws2)
    requires NoFence(pre) && NoFence(payload)
    requires |payload| >= 2 && payload[0] == '{' && payload[|payload| - 1] == '}'
    ensures FencedLayout(t, a, b, o, f, payload)
  {
    Regroup(pre, tag, ws1, payload, ws2, post);
    Layout(t, a, b, o, f, pre, tag, ws1, payload, ws2, post);
    PiecesFenced(t, a, b, o, f, pre, tag, ws1, payload, ws2);
  }

  /** Pieces of the right kinds, at the right positions, make the fenced layout. */
  lemma PiecesFenced(t: string, a: nat, b: nat, o: nat, f: nat,
                     pre: string, tag: string, ws1: string, payload: string, ws2: string)
    requires a + 3 <= b <= o && o + |payload| <= f && f + 3 <= |t|
    requires t[..a] == pre && t[a..a + 3] == Fence && t[f..f + 3] == Fence && t[a + 3..b] == tag
    requires t[b..o] == ws1 && t[o..o + |payload|] == payload && t[o + |payload|..f] == ws2
    requires tag == JsonTag || tag == []
    requires AllWhiteSpace(ws1) && AllWhiteSpace(ws2)
    requires NoFence(pre) && NoFence(payload)
    requires |payload| >= 2 && payload[0] == '{' && payload[|payload| - 1] == '}'
    ensures FencedLayout(t, a, b, o, f, payload)
  {
    FencesAt(t, a, b, f);
    assert t[0..0 + |pre|] == pre;
    forall m: nat | m + 3 <= a ensures !FenceAt(t, m) {
      FenceWithin(t, 0, pre, m);
    }
  }

  /** The fences and the tag, read character by character. */
  lemma FencesAt(t: string, a: nat, b: nat, f: nat)
    requires a + 3 <= b <= f && f + 3 <= |t|
    requires t[a..a + 3] == Fence && t[f..f + 3] == Fence && (t[a + 3..b] == JsonTag || b == a + 3)
    ensures FenceAt(t, a) && FenceAt(t, f) && ((b == a + 7 && TagAt(t, a + 3)) || b == a + 3)
  {
    assert FenceAt(t, a) by {
      assert t[a] == t[a..a + 3][0] && t[a + 1] == t[a..a + 3][1] && t[a + 2] == t[a..a + 3][2];
    }
    assert FenceAt(t, f) by {
      assert t[f] == t[f..f + 3][0] && t[f + 1] == t[f..f + 3][1] && t[f + 2] == t[f..f + 3][2];
    }
    if b != a + 3 {
      assert TagAt(t, a + 3) by {
        assert t[a + 3] == t[a + 3..b][0] && t[a + 4] == t[a + 3..b][1];
        assert t[a + 5] == t[a + 3..b][2] && t[a + 6] == t[a + 3..b][3];
      }
    }
  }

  /** The trimmed response keeps the fenced block between the trimmed prose. */
  lemma TrimmedBlockLayout(t: string, a: nat, b: nat, o: nat, f: nat,
                           pre: string, tag: string, ws1: string, payload: string, ws2: string, post: string)
    requires t == TrimStart(pre) + FencedBlock(tag, ws1, payload, ws2) + TrimEnd(post)
    requires a == |TrimStart(pre)| && b == a + 3 + |tag| && o == b + |ws1| && f == o + |payload| + |ws2|
    requires tag == JsonTag || tag == []
    requires AllWhiteSpace(ws1) && AllWhiteSpace(ws2)
    requires NoFence(pre) && NoFence(payload)
    requires |payload| >= 2 && payload[0] == '{' && payload[|payload| - 1] == '}'
    ensures FencedLayout(t, a, b, o, f, payload)
  {
    TrimStartDropsWhiteSpace(pre);
    NoFenceInTail(pre, |pre| - |TrimStart(pre)|);
    BlockLayout(t, a, b, o, f, TrimStart(pre), tag, ws1, payload, ws2, TrimEnd(post));
  }

  /** Trimming a fenced block between prose leaves the block, with the prose trimmed around it. */
  lemma TrimmedResponseLayout(t: string, a: nat, b: nat, o: nat, f: nat,
                              pre: string, tag: string, ws1: string, payload: string, ws2: string, post: string)
    requires t == Trim(pre + FencedBlock(tag, ws1, payload, ws2) + post)
    requires a == |TrimStart(pre)| && b == a + 3 + |tag| && o == b + |ws1| && f == o + |payload| + |ws2|
    requires tag == JsonTag || tag == []
    requires AllWhiteSpace(ws1) && AllWhiteSpace(ws2)
    requires NoFence(pre) && NoFence(payload)
    requires |payload| >= 2 && payload[0] == '{' && payload[|payload| - 1] == '}'
    ensures FencedLayout(t, a, b, o, f, payload)
  {
    TrimAround(pre, FencedBlock(tag, ws1, payload, ws2), post);
    TrimmedBlockLayout(t, a, b, o, f, pre, tag, ws1, payload, ws2, post);
  }

  /** On a text with the fenced layout, the fenced candidate is the object inside the fences. */
  lemma FencedCandidateOf(t: string, a: nat, b: nat, o: nat, f: nat, g: string)
    requires FencedLayout(t, a, b, o, f, g)
    ensures ExtractJsonStringFromMarkdown(t) == Some(g)
  {
    FencedMatchAt(t, a, b, o, f, g);
    GroupOfMatch(t, a, o, o + |g| - 1);
  }

  /** A fenced candidate that parses is the result. */
  lemma RepairOfCandidate(response: string, g: string, parses: string -> bool)
    requires response != [] && ExtractJsonStringFromMarkdown(Trim(response)) == Some(g) && parses(g)
    ensures ExtractAndFixJsonFromResponse(response, parses) == Some(g)
  {
    TrimUnchanged(g);
  }

  /** The fenced candidate is the group of the leftmost match. */
  lemma GroupOfMatch(t: string, a: nat, o: nat, e: nat)
    requires MatchFrom(t, 0) == Some(FenceMatch(a, o, e))
    ensures ExtractJsonStringFromMarkdown(t) == Some(t[o..e + 1])
  {
  }

  /** Trimming text around a core that starts and ends with non-whitespace trims only the surroundings. */
  lemma TrimAround(pre: string, x: string, post: string)
    requires x != [] && !IsWhiteSpace(x[0]) && !IsWhiteSpace(x[|x| - 1])
    ensures Trim(pre + x + post) == TrimStart(pre) + x + TrimEnd(post)
  {
    AppendAssoc(pre, x, post);
    TrimStartConcat(pre, x + post);
    AppendAssoc(TrimStart(pre), x, post);
    TrimEndConcat(TrimStart(pre) + x, post);
  }

  /** The same wrapped text, grouped around its fenced block. */
  lemma Regroup(pre: string, tag: string, ws1: string, payload: string, ws2: string, post: string)
    ensures pre + Fence + tag + ws1 + payload + ws2 + Fence + post
         == pre + (Fence + tag + ws1 + payload + ws2 + Fence) + post
  {
  }

  /** Where each piece of a wrapped text sits. */
  lemma Layout(t: string, a: nat, b: nat, o: nat, f: nat,
               pre: string, tag: string, ws1: string, payload: string, ws2: string, post: string)
    requires t == pre + Fence + tag + ws1 + payload + ws2 + Fence + post
    requires a == |pre| && b == a + 3 + |tag| && o == b + |ws1| && f == o + |payload| + |ws2|
    ensures f + 3 <= |t|
    ensures t[..a] == pre && t[a..a + 3] == Fence && t[f..f + 3] == Fence && t[a + 3..b] == tag
    ensures t[b..o] == ws1 && t[o..o + |payload|] == payload && t[o + |payload|..f] == ws2
  {
  }

  /** The head of the pattern at a fence, optionally tagged, followed by whitespace and `{`. */
  lemma OpeningFound(t: string, a: nat, b: nat, o: nat)
    requires FenceAt(t, a)
    requires (b == a + 7 && TagAt(t, a + 3)) || (b == a + 3 && !TagAt(t, a + 3))
    requires b <= o < |t| && t[o] == '{' && AllWhiteSpace(t[b..o])
    ensures OpeningAt(t, a) == Some(o)
  {
    SkipWhiteSpaceStopsAt(t, b, o);
  }

  /** The first `}` followed by whitespace and a fence ends the group when no fence comes earlier. */
  lemma CloseFound(t: string, o: nat, e: nat, f: nat)
    requires o < e < f && FenceAt(t, f) && t[e] == '}' && AllWhiteSpace(t[e + 1..f])
    requires forall k: nat :: o <= k && k + 3 <= e ==> !FenceAt(t, k)
    ensures FirstClose(t, o + 1) == Some(e)
  {
    SkipWhiteSpaceStopsAt(t, e + 1, f);
    forall m | o + 1 <= m < e ensures !ClosesAt(t, m) {
      NoCloseInside(t, o, e, m);
    }
    FirstCloseFinds(t, o + 1, e);
  }

  /** A `}` before the end of a stretch without a fence cannot end the group. */
  lemma NoCloseInside(t: string, o: nat, e: nat, m: nat)
    requires o < m < e < |t| && t[e] == '}'
    requires forall k: nat :: o <= k && k + 3 <= e ==> !FenceAt(t, k)
    ensures !ClosesAt(t, m)
  {
    if t[m] == '}' {
      SkipWhiteSpaceStopsBefore(t, m + 1, e);
      var j := SkipWhiteSpace(t, m + 1);
      assert o <= j <= e;
    }
  }

  /**
    No match starts before a fence that no other fence precedes: a start overlapping that
    fence is followed by a backquote, which is neither the tag, whitespace nor `{`.
   */
  lemma NoMatchBefore(t: string, a: nat)
    requires FenceAt(t, a) && forall m: nat :: m + 3 <= a ==> !FenceAt(t, m)
    ensures forall m :: 0 <= m < a ==> !MatchesAt(t, m)
  {
    forall m | 0 <= m < a ensures !MatchesAt(t, m) {
      if m + 3 > a && FenceAt(t, m) {
        assert t[m + 3] == '`';
        SkipWhiteSpaceStopsAt(t, m + 3, m + 3);
      }
    }
  }

  /** A match where no match starts earlier is the leftmost one. */
  lemma MatchFound(t: string, a: nat, o: nat, e: nat)
    requires a <= |t|
    requires forall m :: 0 <= m < a ==> !MatchesAt(t, m)
    requires OpeningAt(t, a) == Some(o) && FirstClose(t, o + 1) == Some(e)
    ensures MatchFrom(t, 0) == Some(FenceMatch(a, o, e))
  {
    assert MatchesAt(t, a);
    MatchFromFinds(t, 0, a);
  }

  /** The fence pattern on a text laid out as prose, fence, tag, whitespace, object, whitespace, fence. */
  lemma FencedMatchAt(t: string, a: nat, b: nat, o: nat, f: nat, g: string)
    requires FencedLayout(t, a, b, o, f, g)
    ensures MatchFrom(t, 0) == Some(FenceMatch(a, o, o + |g| - 1))
  {
    var e := o + |g| - 1;
    assert t[o] == g[0] && t[e] == g[|g| - 1];
    NoMatchBefore(t, a);
    forall k: nat | o <= k && k + 3 <= e ensures !FenceAt(t, k) {
      FenceWithin(t, o, g, k);
    }
    if b == a + 3 && b < o {
      assert IsWhiteSpace(t[b..o][0]);
    }
    OpeningFound(t, a, b, o);
    assert t[e + 1..f] == t[o + |g|..f];
    CloseFound(t, o, e, f);
    MatchFound(t, a, o, e);
  }

  /**
    As written: a response cut off after its first complete entry, with no fence, such as
    {"A":{"DescriptiveName":"X"},"B":{"DescriptiveName":"Y"   -- the brace slice ends at
    the entry's `}`, which removes the `},` that strategy 2 looks for, and the slice ends
    in `}` so strategy 3 does not apply: nothing is recovered.
   */
  lemma TruncatedAfterCompleteEntryIsLost(entry: string, rest: string, parses: string -> bool)
    requires |entry| >= 2 && entry[0] == '{' && entry[|entry| - 1] == '}'
    requires forall k :: !OccursAt(entry, k, EntryEnd)
    requires NoFence(entry + "," + rest) && '}' !in rest
    requires rest == [] || !IsWhiteSpace(rest[|rest| - 1])
    requires !parses(entry)
    ensures ExtractAndFixJsonFromResponse(entry + "," + rest, parses) == None
  {
    var t := entry + "," + rest;
    TruncatedLayout(t, entry, rest);
    EntryNotRepaired(entry, parses);
    SliceNotRepaired(t, entry, parses);
  }

  /**
    As corrected: a response cut off after any number of complete entries, such as
    {"A":{},"B":{},"C":{   -- is repaired to all its complete entries closed with `}`,
    provided the reader rejects the response and the sliced entries and accepts the closed
    ones. The entries may contain `},` themselves.
   */
  lemma TruncatedAfterCompleteEntryIsRecovered(entries: string, rest: string, parses: string -> bool)
    requires |entries| >= 2 && entries[0] == '{' && entries[|entries| - 1] == '}'
    requires NoFence(entries + "," + rest) && '}' !in rest
    requires rest == [] || !IsWhiteSpace(rest[|rest| - 1])
    requires !parses(entries) && !parses(entries + "," + rest) && parses(entries + "}")
    ensures ExtractAndRepairTruncated(entries + "," + rest, parses) == Some(entries + "}")
  {
    var t := entries + "," + rest;
    TruncatedLayout(t, entries, rest);
    TrimUnchanged(entries);
    UnslicedRecovers(t, entries, parses);
  }

  /**
    As written: the same response loses its last complete entry whatever comes before it.
    The brace slice ends at that entry's `}`, so the repair either fails or cuts at an
    earlier `},`; the result is never the complete entries closed with `}`.
   */
  lemma TruncatedAfterCompleteEntriesLosesLast(entries: string, rest: string, parses: string -> bool)
    requires |entries| >= 2 && entries[0] == '{' && entries[|entries| - 1] == '}'
    requires NoFence(entries + "," + rest) && '}' !in rest
    requires rest == [] || !IsWhiteSpace(rest[|rest| - 1])
    requires !parses(entries)
    ensures var r := ExtractAndFixJsonFromResponse(entries + "," + rest, parses);
      (r.None? || |r.value| <= |entries|) && r != Some(entries + "}")
  {
    var t := entries + "," + rest;
    TruncatedLayout(t, entries, rest);
    TrimUnchanged(entries);
    ClosedSliceRepairShorter(entries, parses);
  }

  /** A trimmed text ending in `}` that fails to parse is repaired, if at all, to nothing longer. */
  lemma ClosedSliceRepairShorter(c: string, parses: string -> bool)
    requires |c| >= 2 && c[|c| - 1] == '}' && Trim(c) == c && !parses(c)
    ensures var r := FixTruncatedJson(c, parses); r.None? || |r.value| <= |c|
  {
    assert EndsWith(c, "}") by { assert c[|c| - 1..] == "}"; }
    RepairOutcomes(c, parses);
    var r := FixTruncatedJson(c, parses);
    if r.Some? && r == CutAfterLastEntry(c) {
      CutAfterLastEntryIsTail(c);
    }
  }

  /** The corrected repair on a truncated response whose last `},` ends its complete entries. */
  lemma UnslicedRecovers(t: string, entry: string, parses: string -> bool)
    requires t != [] && t[0] == '{' && Trim(t) == t && ExtractJsonStringFromMarkdown(t).None?
    requires IndexOf(t, '{') == Some(0) && BraceCandidate(t) == Some(entry)
    requires LastIndexOfString(t, EntryEnd) == Some(|entry| - 1) && |entry| <= |t| && t[..|entry|] == entry
    requires !parses(Trim(entry)) && !parses(t) && parses(entry + "}")
    ensures ExtractAndRepairTruncated(t, parses) == Some(entry + "}")
  {
    TrimUnchanged(t);
    EntryCutKeepsCompleteEntries(t, parses);
    UnslicedRepaired(t, entry, parses);
  }

  /** A text without a fence has no fenced candidate. */
  lemma NoFenceNoCandidate(t: string)
    requires NoFence(t)
    ensures ExtractJsonStringFromMarkdown(t).None?
  {
    NoCandidateMeansNoMatch(t);
  }

  /** Where the pieces of a response cut off after its first complete entry sit. */
  lemma TruncatedLayout(t: string, entry: string, rest: string)
    requires t == entry + "," + rest
    requires |entry| >= 2 && entry[0] == '{' && entry[|entry| - 1] == '}'
    requires NoFence(entry + "," + rest) && '}' !in rest
    requires rest == [] || !IsWhiteSpace(rest[|rest| - 1])
    ensures t != [] && Trim(t) == t && ExtractJsonStringFromMarkdown(t).None?
    ensures IndexOf(t, '{') == Some(0) && BraceCandidate(t) == Some(entry)
    ensures LastIndexOfString(t, EntryEnd) == Some(|entry| - 1) && t[..|entry|] == entry
  {
    assert t[0] == entry[0];
    assert t[|t| - 1] == if rest == [] then ',' else rest[|rest| - 1];
    TrimUnchanged(t);
    NoFenceNoCandidate(t);
    BraceCandidateOfTruncated(t, entry, rest);
    LastEntryEndOfTruncated(t, entry, rest);
  }

  /** The brace slice of the truncated response is its complete entry. */
  lemma BraceCandidateOfTruncated(t: string, entry: string, rest: string)
    requires t == entry + "," + rest && entry != [] && entry[0] == '{' && entry[|entry| - 1] == '}'
    requires '}' !in rest
    ensures IndexOf(t, '{') == Some(0) && BraceCandidate(t) == Some(entry) && t[..|entry|] == entry
  {
    assert t[0] == '{';
    assert t[0..] == t;
    LastBraceIsEntryEnd(t, entry, rest);
    assert t[..|entry|] == entry;
  }

  /** The last `}` of the truncated response closes its complete entry. */
  lemma LastBraceIsEntryEnd(t: string, entry: string, rest: string)
    requires t == entry + "," + rest && entry != [] && entry[|entry| - 1] == '}' && '}' !in rest
    ensures LastIndexOf(t, '}') == Some(|entry| - 1)
  {
    assert t[|entry| - 1] == '}';
  }

  /** The last `},` of the truncated response is the one after its complete entry. */
  lemma LastEntryEndOfTruncated(t: string, entry: string, rest: string)
    requires t == entry + "," + rest && entry != [] && entry[|entry| - 1] == '}' && '}' !in rest
    ensures LastIndexOfString(t, EntryEnd) == Some(|entry| - 1)
  {
    var k := |entry| - 1;
    assert t[k..k + 2] == EntryEnd;
    assert OccursAt(t, k, EntryEnd);
    LastIndexOfStringIsLast(t, EntryEnd);
    var last := LastIndexOfString(t, EntryEnd).value;
    EntryEndStartsWithBrace(t, last);
  }

  /** A `},` starts with a `}`. */
  lemma EntryEndStartsWithBrace(s: string, k: nat)
    requires OccursAt(s, k, EntryEnd)
    ensures s[k] == '}'
  {
    assert s[k] == s[k..k + 2][0];
  }

  /** An entry whose only `}` is its last character has no `},` inside. */
  lemma NoEntryEndInside(entry: string)
    requires entry != [] && '}' !in entry[..|entry| - 1]
    ensures forall k :: !OccursAt(entry, k, EntryEnd)
  {
    forall k: nat | OccursAt(entry, k, EntryEnd) ensures false {
      EntryEndStartsWithBrace(entry, k);
    }
  }

  /** A complete entry that does not parse and has no `},` inside cannot be repaired. */
  lemma EntryNotRepaired(entry: string, parses: string -> bool)
    requires |entry| >= 2 && entry[0] == '{' && entry[|entry| - 1] == '}'
    requires forall k :: !OccursAt(entry, k, EntryEnd)
    requires !parses(entry)
    ensures FixTruncatedJson(entry, parses).None?
  {
    TrimUnchanged(entry);
    NoEntryEndNotFound(entry);
    ClosedUncutNotRepaired(entry, parses);
  }

  /** A trimmed text that ends in `}`, fails to parse and has no `},` is not repaired. */
  lemma ClosedUncutNotRepaired(c: string, parses: string -> bool)
    requires |c| >= 2 && c[|c| - 1] == '}' && Trim(c) == c && !parses(c)
    requires LastIndexOfString(c, EntryEnd).None?
    ensures FixTruncatedJson(c, parses).None?
  {
    assert CutAfterLastEntry(c).None?;
    assert EndsWith(c, "}") by { assert c[|c| - 1..] == "}"; }
  }

  /** With no `},` anywhere, the search for the last one fails. */
  lemma NoEntryEndNotFound(s: string)
    requires forall k :: !OccursAt(s, k, EntryEnd)
    ensures LastIndexOfString(s, EntryEnd).None?
  {
  }

  /** With no fenced candidate, an unrepairable brace slice gives None. */
  lemma SliceNotRepaired(t: string, entry: string, parses: string -> bool)
    requires t != [] && Trim(t) == t && ExtractJsonStringFromMarkdown(t).None?
    requires BraceCandidate(t) == Some(entry) && FixTruncatedJson(entry, parses).None?
    ensures ExtractAndFixJsonFromResponse(t, parses) == None
  {
  }

  /** With no fenced candidate and a slice that does not parse, the corrected repair tries the whole tail first. */
  lemma UnslicedRepaired(t: string, entry: string, parses: string -> bool)
    requires t != [] && Trim(t) == t && ExtractJsonStringFromMarkdown(t).None?
    requires IndexOf(t, '{') == Some(0) && BraceCandidate(t) == Some(entry)
    requires !parses(Trim(entry))
    ensures FixTruncatedJson(t, parses).Some? ==> ExtractAndRepairTruncated(t, parses) == FixTruncatedJson(t, parses)
  {
    assert t[0..] == t;
  }

  /** A short instance of the same truncation: {"A":{},"B":{ -- cut off inside its second entry. */
  lemma ShortTruncationExample(parses: string -> bool)
    requires !parses("{\"A\":{}") && !parses("{\"A\":{},\"B\":{") && parses("{\"A\":{}}")
    ensures ExtractAndFixJsonFromResponse("{\"A\":{},\"B\":{", parses) == None
    ensures ExtractAndRepairTruncated("{\"A\":{},\"B\":{", parses) == Some("{\"A\":{}}")
  {
    var entry := "{\"A\":{}";
    var rest := "\"B\":{";
    assert entry + "," + rest == "{\"A\":{},\"B\":{";
    assert entry + "}" == "{\"A\":{}}";
    assert entry[..|entry| - 1] == "{\"A\":{";
    NoEntryEndInside(entry);
    NoBackquoteNoFence(entry + "," + rest);
    TruncatedAfterCompleteEntryIsLost(entry, rest, parses);
    TruncatedAfterCompleteEntryIsRecovered(entry, rest, parses);
  }

  /**
    Two complete entries before the truncation: as written, the second one, B, is lost
    without any error; as corrected, both are kept.
   */
  lemma TwoEntryTruncationExample(parses: string -> bool)
    requires !parses("{\"A\":{},\"B\":{}") && !parses("{\"A\":{},\"B\":{},\"C\":{")
    requires parses("{\"A\":{}}") && parses("{\"A\":{},\"B\":{}}")
    ensures ExtractAndFixJsonFromResponse("{\"A\":{},\"B\":{},\"C\":{", parses) == Some("{\"A\":{}}")
    ensures ExtractAndRepairTruncated("{\"A\":{},\"B\":{},\"C\":{", parses) == Some("{\"A\":{},\"B\":{}}")
  {
    var entries := "{\"A\":{},\"B\":{}";
    var rest := "\"C\":{";
    var t := entries + "," + rest;
    assert t == "{\"A\":{},\"B\":{},\"C\":{";
    assert entries + "}" == "{\"A\":{},\"B\":{}}";
    NoBackquoteNoFence(t);
    TruncatedLayout(t, entries, rest);
    TwoEntrySliceCut(entries, parses);
    TruncatedAfterCompleteEntryIsRecovered(entries, rest, parses);
  }

  /** The slice {"A":{},"B":{} is cut at its only `},`, after A. */
  lemma TwoEntrySliceCut(entries: string, parses: string -> bool)
    requires entries == "{\"A\":{},\"B\":{}"
    requires !parses(entries) && parses("{\"A\":{}}")
    ensures FixTruncatedJson(entries, parses) == Some("{\"A\":{}}")
  {
    assert OccursAt(entries, 6, EntryEnd) by { assert entries[6..8] == EntryEnd; }
    LastIndexOfStringIsLast(entries, EntryEnd);
    var k := LastIndexOfString(entries, EntryEnd).value;
    assert entries[k] == '}' by { EntryEndStartsWithBrace(entries, k); }
    assert k == 6;
    assert entries[..7] + "}" == "{\"A\":{}}";
    EntryCutKeepsCompleteEntries(entries, parses);
  }
}
