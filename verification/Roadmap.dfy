/** The roadmap parser and the release gate on its items
    (packaging/roadmap_release_gate.py:20-30, 70-232). Input is the list of lines. */
module Roadmap {
  import opened Outcomes
  import opened TextSearch

  // ---- Lines ---------------------------------------------------------------------------------

  /** Length of the longest prefix of `s` made of `c`. */
  function RunOf(s: string, c: char): (n: nat)
    ensures n <= |s|
  {
    if s != "" && s[0] == c then 1 + RunOf(s[1..], c) else 0
  }

  predicate IsBlank(c: char) { c == ' ' || c == '\t' }

  function BlankRun(s: string): (n: nat)
    ensures n <= |s|
  {
    if s != "" && IsBlank(s[0]) then 1 + BlankRun(s[1..]) else 0
  }

  /** A code fence opens: at most three spaces, at least three markers, and for backticks an info
      string without a backtick. */
  function FenceOpening(line: string): Option<(char, nat)> {
    var indent := RunOf(line, ' ');
    if indent > 3 || indent == |line| then None
    else
      var c := line[indent];
      var n := RunOf(line[indent..], c);
      if (c != '`' && c != '~') || n < 3 then None
      else if c == '`' && '`' in line[indent + n..] then None
      else Some((c, n))
  }

  /** The open fence is closed by at least as many of its markers, alone on the line. */
  predicate FenceClosing(line: string, c: char, n: nat) {
    var indent := RunOf(line, ' ');
    indent <= 3 &&
    var rest := line[indent..];
    RunOf(rest, c) >= n && BlankRun(rest[RunOf(rest, c)..]) == |rest| - RunOf(rest, c)
  }

  /** Length of a list marker at the start, or 0. */
  function Marker(s: string): (n: nat)
    ensures n <= |s|
  {
    if s == "" then 0
    else if s[0] in "-+*" then 1
    else if 0 < DigitRun(s) < |s| && s[DigitRun(s)] in ".)" then DigitRun(s) + 1
    else 0
  }

  /** Drops blockquote signs and blanks. */
  function AfterQuotes(s: string): string {
    if s != "" && (IsBlank(s[0]) || s[0] == '>') then AfterQuotes(s[1..]) else s
  }

  /** Drops list markers that are each followed by blanks; `None` if there is none at all. */
  function AfterMarkers(s: string, some: bool): Option<string>
    decreases |s|
  {
    var m := Marker(s);
    if m > 0 && BlankRun(s[m..]) > 0 then AfterMarkers(s[m + BlankRun(s[m..])..], true)
    else if some then Some(s)
    else None
  }

  /** The body behind a box: what is left of the line once blanks and trailing space are dropped. */
  function BodyOf(rest: string): Option<string> {
    if BlankRun(rest) > 0 then Some(Rstrip(rest[BlankRun(rest)..]))
    else if Rstrip(rest) == "" then Some("")
    else None
  }

  /** State and body of a task box. */
  function TaskBox(line: string): Option<(string, string)> {
    var s := AfterMarkers(AfterQuotes(line), false);
    if s.None? || s.value == "" || s.value[0] != '[' then None
    else
      var close := Find(s.value, "]");
      if close == -1 then None
      else
        var state, rest := s.value[1..close], s.value[close + 1..];
        if '\r' in state || '\n' in state || BodyOf(rest).None? then None
        else Some((state, BodyOf(rest).value))
  }

  predicate InIdentifier(c: char) { 'A' <= c <= 'Z' || IsDigit(c) || c == '-' }

  function IdentifierRun(s: string): (n: nat)
    ensures n <= |s|
  {
    if s != "" && InIdentifier(s[0]) then 1 + IdentifierRun(s[1..]) else 0
  }

  const GOLD := "**GOLD-"

  /** A bold GOLD identifier at the start of the body, followed by space or the end. */
  function GoldId(body: string): Option<string> {
    if !(GOLD <= body) then None
    else
      var rest := body[|GOLD|..];
      var n := IdentifierRun(rest);
      if n == 0 || !("**" <= rest[n..]) then None
      else if n + 2 < |rest| && !IsSpace(rest[n + 2]) then None
      else Some("GOLD-" + rest[..n])
  }

  // ---- What the line classifiers read ---------------------------------------------------------

  function Repeat(c: char, n: nat): (s: string)
    ensures |s| == n
  {
    if n == 0 then "" else [c] + Repeat(c, n - 1)
  }

  lemma {:induction false} RunOfRepeat(c: char, n: nat, rest: string)
    requires rest == "" || rest[0] != c
    ensures RunOf(Repeat(c, n) + rest, c) == n && (Repeat(c, n) + rest)[n..] == rest
  {
    if n == 0 {
      assert Repeat(c, n) + rest == rest;
    } else {
      RunOfRepeat(c, n - 1, rest);
      assert (Repeat(c, n) + rest)[1..] == Repeat(c, n - 1) + rest;
    }
  }

  function FenceLine(indent: nat, c: char, n: nat, info: string): string {
    Repeat(' ', indent) + (Repeat(c, n) + info)
  }

  lemma FenceLineParts(indent: nat, c: char, n: nat, info: string)
    requires (c == '`' || c == '~') && 0 < n && (info == "" || info[0] != c)
    ensures var line := FenceLine(indent, c, n, info);
            && RunOf(line, ' ') == indent < |line| && line[indent] == c && RunOf(line[indent..], c) == n
            && indent + n <= |line| && line[indent..][n..] == info == line[indent + n..]
  {
    var marks := Repeat(c, n) + info;
    assert marks[0] == c;
    RunOfRepeat(' ', indent, marks);
    RunOfRepeat(c, n, info);
    var line := FenceLine(indent, c, n, info);
    hide RunOf, Repeat;
    assert line[indent..] == marks;
    assert line[indent] == marks[0];
    assert line[indent + n..] == line[indent..][n..];
  }

  /** Up to three spaces, then `n` markers: opens a fence of exactly that kind and length, and
      closes one exactly when it is long enough and nothing else is on the line. */
  lemma FenceLines(indent: nat, c: char, n: nat, info: string, open: nat)
    requires indent <= 3 && (c == '`' || c == '~') && 0 < n && (info == "" || info[0] != c)
    ensures var line := FenceLine(indent, c, n, info);
            && (FenceOpening(line) == Some((c, n)) <==> n >= 3 && (c == '`' ==> '`' !in info))
            && (FenceClosing(line, c, open) <==> n >= open && BlankRun(info) == |info|)
  {
    hide RunOf, Repeat, BlankRun, FenceLine;
    FenceLineParts(indent, c, n, info);
  }

  // ---- The grammar of a task line ------------------------------------------------------------

  predicate Blanks(s: string) {
    forall i :: 0 <= i < |s| ==> IsBlank(s[i])
  }

  predicate Spaces(s: string) {
    forall i :: 0 <= i < |s| ==> IsSpace(s[i])
  }

  /** Blockquote signs and blanks. */
  predicate Quotes(s: string) {
    forall i :: 0 <= i < |s| ==> IsBlank(s[i]) || s[i] == '>'
  }

  /** A bullet, or digits with a full stop or a parenthesis. */
  predicate ListMark(s: string) {
    || (|s| == 1 && s[0] in "-+*")
    || (|s| >= 2 && s[|s| - 1] in ".)" && forall i :: 0 <= i < |s| - 1 ==> IsDigit(s[i]))
  }

  /** Nested list markers, each followed by at least one blank. */
  predicate Markers(items: seq<(string, string)>) {
    forall k :: 0 <= k < |items| ==> ListMark(items[k].0) && items[k].1 != "" && Blanks(items[k].1)
  }

  function MarkersText(items: seq<(string, string)>): string {
    if items == [] then "" else items[0].0 + (items[0].1 + MarkersText(items[1..]))
  }

  function Boxed(state: string, tail: string): string {
    "[" + state + "]" + tail
  }

  /** Blanks before a body, the body without surrounding space, and trailing space. */
  predicate BodyParts(gap: string, body: string, trail: string) {
    && Blanks(gap) && Spaces(trail) && Rstrip(body) == body
    && (body != "" ==> gap != "" && !IsBlank(body[0]))
  }

  predicate StateText(state: string) {
    ']' !in state && '\r' !in state && '\n' !in state
  }

  lemma {:induction false} QuotesStripped(quotes: string, rest: string)
    requires Quotes(quotes) && rest != "" && !IsBlank(rest[0]) && rest[0] != '>'
    ensures AfterQuotes(quotes + rest) == rest
  {
    if quotes == "" {
      assert quotes + rest == rest;
    } else {
      QuotesStripped(quotes[1..], rest);
      assert (quotes + rest)[1..] == quotes[1..] + rest;
    }
  }

  lemma {:induction false} BlankRunAll(gap: string, rest: string)
    requires Blanks(gap) && (rest == "" || !IsBlank(rest[0]))
    ensures BlankRun(gap + rest) == |gap| && (gap + rest)[|gap|..] == rest
  {
    if gap == "" {
      assert gap + rest == rest;
    } else {
      BlankRunAll(gap[1..], rest);
      assert (gap + rest)[1..] == gap[1..] + rest;
    }
  }

  lemma {:induction false} DigitRunAll(digits: string, rest: string)
    requires (forall i :: 0 <= i < |digits| ==> IsDigit(digits[i])) && (rest == "" || !IsDigit(rest[0]))
    ensures DigitRun(digits + rest) == |digits|
  {
    if digits == "" {
      assert digits + rest == rest;
    } else {
      DigitRunAll(digits[1..], rest);
      assert (digits + rest)[1..] == digits[1..] + rest;
    }
  }

  lemma MarkerRead(mark: string, rest: string)
    requires ListMark(mark)
    ensures Marker(mark + rest) == |mark| && (mark + rest)[|mark|..] == rest
    ensures mark != "" && !IsBlank(mark[0]) && mark[0] != '>' && mark[0] != '['
  {
    var s := mark + rest;
    assert s[0] == mark[0];
    if |mark| >= 2 {
      var digits, closing := mark[..|mark| - 1], [mark[|mark| - 1]] + rest;
      assert s == digits + closing;
      assert IsDigit(mark[0]);
      DigitRunAll(digits, closing);
    }
  }

  lemma {:induction false} MarkersStripped(items: seq<(string, string)>, boxed: string, some: bool)
    requires Markers(items) && boxed != "" && boxed[0] == '[' && (some || items != [])
    ensures AfterMarkers(MarkersText(items) + boxed, some) == Some(boxed)
    ensures var s := MarkersText(items) + boxed; s != "" && !IsBlank(s[0]) && s[0] != '>'
  {
    if items == [] {
      assert MarkersText(items) + boxed == boxed;
      assert Marker(boxed) == 0 by {
        NoMarker(boxed);
      }
    } else {
      var mark, gap, rest := items[0].0, items[0].1, MarkersText(items[1..]) + boxed;
      assert MarkersText(items) + boxed == mark + (gap + rest) by {
        Regroup(mark, gap, MarkersText(items[1..]), boxed);
      }
      MarkersStripped(items[1..], boxed, true);
      MarkerRead(mark, gap + rest);
      BlankRunAll(gap, rest);
      hide Marker, BlankRun, MarkersText, ListMark, IsBlank;
      AfterOne(mark, gap, rest, some);
    }
  }

  lemma NoMarker(boxed: string)
    requires boxed != "" && boxed[0] == '['
    ensures Marker(boxed) == 0
  {
    assert DigitRun(boxed) == 0;
  }

  lemma Regroup(a: string, b: string, c: string, d: string)
    ensures (a + (b + c)) + d == a + (b + (c + d))
  {
  }

  lemma AfterOne(mark: string, gap: string, rest: string, some: bool)
    requires Marker(mark + (gap + rest)) == |mark| > 0 && (mark + (gap + rest))[|mark|..] == gap + rest
    requires BlankRun(gap + rest) == |gap| > 0 && (gap + rest)[|gap|..] == rest
    ensures AfterMarkers(mark + (gap + rest), some) == AfterMarkers(rest, true)
  {
    hide Marker, BlankRun;
    var s := mark + (gap + rest);
    assert s[|mark| + |gap|..] == s[|mark|..][|gap|..];
  }

  lemma BoxCloses(state: string, rest: string)
    requires ']' !in state
    ensures Find(Boxed(state, rest), "]") == 1 + |state|
  {
    var boxed := Boxed(state, rest);
    var close := 1 + |state|;
    assert boxed[close..close + 1] == "]";
    assert OccursAt(boxed, "]", close);
    forall k | 0 <= k < close ensures !OccursAt(boxed, "]", k) {
      assert boxed[k..k + 1][0] == boxed[k];
      assert boxed[k] != ']';
    }
  }

  lemma BoxParts(state: string, rest: string)
    ensures Boxed(state, rest)[1..1 + |state|] == state && Boxed(state, rest)[2 + |state|..] == rest
  {
    var boxed := Boxed(state, rest);
    assert boxed[..2 + |state|] == "[" + state + "]";
    assert boxed[2 + |state|..] == rest;
    assert boxed[1..1 + |state|] == boxed[..2 + |state|][1..1 + |state|];
    assert ("[" + state + "]")[1..1 + |state|] == ("[" + state)[1..] == state;
  }

  lemma {:induction false} RstripTrail(body: string, trail: string)
    requires Rstrip(body) == body && Spaces(trail)
    ensures Rstrip(body + trail) == body
  {
    if trail == "" {
      assert body + trail == body;
    } else {
      var shorter := trail[..|trail| - 1];
      RstripTrail(body, shorter);
      assert (body + trail)[..|body + trail| - 1] == body + shorter;
    }
  }

  lemma AllSpaces(s: string)
    requires Spaces(s)
    ensures Rstrip(s) == ""
  {
    RstripTrail("", s);
    assert "" + s == s;
  }

  lemma BodyReads(gap: string, body: string, trail: string)
    requires BodyParts(gap, body, trail)
    ensures BodyOf(gap + (body + trail)) == Some(body)
  {
    var rest := gap + (body + trail);
    if body == "" {
      assert Spaces(rest);
      AllSpaces(rest);
      AllSpaces(rest[BlankRun(rest)..]);
    } else {
      assert (body + trail)[0] == body[0];
      BlankRunAll(gap, body + trail);
      RstripTrail(body, trail);
    }
  }

  /** Every line of the grammar is read as its state and body: quotes and blanks, at least one list
      marker, bulleted or numbered, nested to any depth, the box, and a body. */
  lemma TaskBoxReads(quotes: string, items: seq<(string, string)>, state: string, gap: string, body: string, trail: string)
    requires Quotes(quotes) && Markers(items) && items != [] && StateText(state) && BodyParts(gap, body, trail)
    ensures TaskBox(quotes + (MarkersText(items) + Boxed(state, gap + (body + trail)))) == Some((state, body))
  {
    var rest := gap + (body + trail);
    var boxed := Boxed(state, rest);
    assert boxed[0] == '[';
    BodyReads(gap, body, trail);
    hide AfterMarkers, AfterQuotes, Find, Rstrip, BlankRun, OccursAt, Markers, MarkersText, Quotes, BodyParts, Boxed;
    MarkersStripped(items, boxed, false);
    QuotesStripped(quotes, MarkersText(items) + boxed);
    BoxCloses(state, rest);
    BoxParts(state, rest);
  }

  lemma {:induction false} QuotesSplit(line: string) returns (quotes: string)
    ensures Quotes(quotes) && line == quotes + AfterQuotes(line)
  {
    if line != "" && (IsBlank(line[0]) || line[0] == '>') {
      var rest := QuotesSplit(line[1..]);
      quotes := [line[0]] + rest;
      assert line == [line[0]] + line[1..];
    } else {
      quotes := "";
    }
  }

  lemma {:induction false} BlankRunSplit(s: string)
    ensures Blanks(s[..BlankRun(s)]) && (BlankRun(s) < |s| ==> !IsBlank(s[BlankRun(s)]))
  {
    if s != "" && IsBlank(s[0]) {
      BlankRunSplit(s[1..]);
      assert forall i :: 1 <= i < BlankRun(s) ==> s[i] == s[1..][..BlankRun(s[1..])][i - 1];
    }
  }

  lemma MarkerIsListMark(s: string)
    requires Marker(s) > 0
    ensures ListMark(s[..Marker(s)])
  {
  }

  lemma OneMarkerSplit(s: string, m: nat, b: nat)
    requires m == Marker(s) > 0 && b == BlankRun(s[m..]) > 0
    ensures m + b <= |s| && ListMark(s[..m]) && Blanks(s[m..m + b]) && s == s[..m] + (s[m..m + b] + s[m + b..])
  {
    MarkerIsListMark(s);
    BlankRunSplit(s[m..]);
    hide ListMark, Blanks, Marker, BlankRun;
    InThree(s, m, b);
  }

  lemma InThree(s: string, m: nat, b: nat)
    requires m + b <= |s|
    ensures s[m..][..b] == s[m..m + b] && s == s[..m] + (s[m..m + b] + s[m + b..])
  {
    var tail := s[m..];
    assert tail[..b] == s[m..m + b];
    assert tail[b..] == s[m + b..];
    PrefixAndRest(tail[..b], tail);
    PrefixAndRest(s[..m], s);
  }

  lemma MarkersCons(mark: string, gap: string, others: seq<(string, string)>, s: string, rest: string, value: string)
    requires s == mark + (gap + rest) && rest == MarkersText(others) + value
    requires ListMark(mark) && gap != "" && Blanks(gap) && Markers(others)
    ensures Markers([(mark, gap)] + others) && s == MarkersText([(mark, gap)] + others) + value
  {
    hide ListMark, Blanks;
    var items := [(mark, gap)] + others;
    assert items[1..] == others;
    Regroup(mark, gap, MarkersText(others), value);
  }

  lemma {:induction false} MarkersSplit(s: string, some: bool) returns (items: seq<(string, string)>)
    requires AfterMarkers(s, some).Some?
    ensures Markers(items) && (some || items != []) && s == MarkersText(items) + AfterMarkers(s, some).value
    decreases |s|
  {
    hide Markers, MarkersText, ListMark, Blanks, Marker, BlankRun;
    var m := Marker(s);
    var b := BlankRun(s[m..]);
    if m > 0 && b > 0 {
      OneMarkerSplit(s, m, b);
      var others := MarkersSplit(s[m + b..], true);
      items := [(s[..m], s[m..m + b])] + others;
      MarkersCons(s[..m], s[m..m + b], others, s, s[m + b..], AfterMarkers(s, some).value);
    } else {
      items := [];
      NoMarkers(s);
    }
  }

  lemma NoMarkers(s: string)
    ensures Markers([]) && s == MarkersText([]) + s
  {
  }

  lemma {:induction false} RstripTwice(s: string)
    ensures Rstrip(Rstrip(s)) == Rstrip(s) && Spaces(s[|Rstrip(s)|..])
  {
  }

  lemma BodySplit(rest: string) returns (gap: string, trail: string)
    requires BodyOf(rest).Some?
    ensures BodyParts(gap, BodyOf(rest).value, trail) && rest == gap + (BodyOf(rest).value + trail)
  {
    hide BodyOf, BlankRun, Rstrip, IsSpace, IsBlank, Blanks, Spaces;
    BlankRunSplit(rest);
    BodyIsStripped(rest);
    gap := rest[..BlankRun(rest)];
    var after := rest[BlankRun(rest)..];
    RstripTwice(after);
    trail := after[|Rstrip(after)|..];
    PrefixAndRest(gap, rest);
    PrefixAndRest(Rstrip(after), after);
  }

  lemma PrefixAndRest(prefix: string, s: string)
    requires prefix <= s
    ensures s == prefix + s[|prefix|..]
  {
  }

  lemma BodyIsStripped(rest: string)
    requires BodyOf(rest).Some?
    ensures BodyOf(rest).value == Rstrip(rest[BlankRun(rest)..])
    ensures BodyOf(rest).value != "" ==> BlankRun(rest) > 0 && BlankRun(rest) < |rest| && BodyOf(rest).value[0] == rest[BlankRun(rest)]
  {
    hide IsSpace;
    assert rest[0..] == rest;
  }

  lemma FirstBracket(s: string, close: int)
    requires close == Find(s, "]") && close != -1
    ensures 0 <= close < |s| && s[close] == ']' && forall k :: 0 <= k < close ==> s[k] != ']'
  {
    hide Find;
    assert OccursAt(s, "]", close);
    assert s[close] == s[close..close + 1][0];
    forall k | 0 <= k < close ensures s[k] != ']' {
      assert !OccursAt(s, "]", k);
      assert s[k..k + 1] == [s[k]];
    }
  }

  lemma BoxSplit(s: string, close: int)
    requires s != "" && s[0] == '[' && close == Find(s, "]") && close != -1
    ensures 1 <= close < |s| && ']' !in s[1..close] && s == Boxed(s[1..close], s[close + 1..])
  {
    hide Find;
    FirstBracket(s, close);
    assert close != 0;
    NoBracket(s, close);
    Reassembled(s, close);
  }

  lemma NoBracket(s: string, close: nat)
    requires 1 <= close < |s| && forall k :: 0 <= k < close ==> s[k] != ']'
    ensures ']' !in s[1..close]
  {
    var state := s[1..close];
    assert forall i :: 0 <= i < |state| ==> state[i] == s[i + 1];
  }

  lemma Reassembled(s: string, close: nat)
    requires 1 <= close < |s| && s[0] == '[' && s[close] == ']'
    ensures s == Boxed(s[1..close], s[close + 1..])
  {
    var front := s[..close];
    assert front == [s[0]] + s[1..close];
    assert s == front + [s[close]] + s[close + 1..];
  }

  /** Conversely every line that is read as a task box has that grammar, so the pattern accepts
      exactly these lines. */
  lemma TaskBoxParses(line: string) returns (quotes: string, items: seq<(string, string)>, gap: string, trail: string)
    requires TaskBox(line).Some?
    ensures Quotes(quotes) && Markers(items) && items != [] && StateText(TaskBox(line).value.0)
    ensures BodyParts(gap, TaskBox(line).value.1, trail)
    ensures line == quotes + (MarkersText(items) + Boxed(TaskBox(line).value.0, gap + (TaskBox(line).value.1 + trail)))
  {
    hide AfterMarkers, AfterQuotes, Find, BodyOf, BlankRun, OccursAt, Markers, MarkersText, Quotes, BodyParts, Boxed;
    quotes := QuotesSplit(line);
    items := MarkersSplit(AfterQuotes(line), false);
    var s := AfterMarkers(AfterQuotes(line), false).value;
    var close := Find(s, "]");
    BoxSplit(s, close);
    gap, trail := BodySplit(s[close + 1..]);
  }

  lemma {:induction false} IdentifierRunAll(id: string, rest: string)
    requires (forall i :: 0 <= i < |id| ==> InIdentifier(id[i])) && (rest == "" || !InIdentifier(rest[0]))
    ensures IdentifierRun(id + rest) == |id|
  {
    if id == "" {
      assert id + rest == rest;
    } else {
      IdentifierRunAll(id[1..], rest);
      assert (id + rest)[1..] == id[1..] + rest;
    }
  }

  /** A bold identifier at the start of a body is read back, alone or before a space. */
  lemma GoldIdReads(id: string, rest: string)
    requires id != "" && forall i :: 0 <= i < |id| ==> InIdentifier(id[i])
    ensures GoldId(GOLD + id + "**" + rest) == if rest == "" || IsSpace(rest[0]) then Some("GOLD-" + id) else None
  {
    var tail := id + ("**" + rest);
    assert GOLD + id + "**" + rest == GOLD + tail && (GOLD + tail)[|GOLD|..] == tail;
    IdentifierRunAll(id, "**" + rest);
    assert tail[|id|..] == "**" + rest && tail[..|id|] == id;
    assert rest != "" ==> tail[|id| + 2] == rest[0];
  }

  // ---- Parsing -------------------------------------------------------------------------------

  datatype Item = Item(line: int, state: string, identifier: Option<string>, body: string)

  datatype Fence = NoFence | InFence(c: char, n: nat, line: int)

  datatype RoadmapError = UnknownState(line: int) | UnterminatedFence(line: int)

  datatype LineResult = Skipped(fence: Fence) | Found(item: Item) | Bad

  /** What one line does to the parser. */
  function Step(line: string, number: int, fence: Fence): LineResult {
    if fence.InFence? then
      Skipped(if FenceClosing(line, fence.c, fence.n) then NoFence else fence)
    else
      var opening := FenceOpening(line);
      if opening.Some? then Skipped(InFence(opening.value.0, opening.value.1, number))
      else
        var task := TaskBox(line);
        if task.None? then Skipped(NoFence)
        else if task.value.0 !in [" ", "x", "X", "~"] then Bad
        else Found(Item(number, task.value.0, GoldId(task.value.1), task.value.1))
  }

  /** Items of `lines`, the first of which has the given number, and the fence left open. */
  function Scan(lines: seq<string>, number: int, fence: Fence): Result<(seq<Item>, Fence), RoadmapError>
    decreases |lines|
  {
    if lines == [] then Success(([], fence))
    else
      match Step(lines[0], number, fence)
      case Bad => Failure(UnknownState(number))
      case Skipped(next) => Scan(lines[1..], number + 1, next)
      case Found(item) =>
        Prepend([item], Scan(lines[1..], number + 1, NoFence))
  }

  /** `items` put in front of what a scan found. */
  function Prepend(items: seq<Item>, r: Result<(seq<Item>, Fence), RoadmapError>): Result<(seq<Item>, Fence), RoadmapError> {
    if r.Failure? then r else Success((items + r.value.0, r.value.1))
  }

  lemma PrependTwice(a: seq<Item>, b: seq<Item>, r: Result<(seq<Item>, Fence), RoadmapError>)
    ensures Prepend(a, Prepend(b, r)) == Prepend(a + b, r)
    ensures Prepend([], r) == r
  {
    if r.Success? {
      assert a + (b + r.value.0) == a + b + r.value.0;
      assert [] + r.value.0 == r.value.0;
    }
  }

  function Items(lines: seq<string>): Result<seq<Item>, RoadmapError> {
    var r := Scan(lines, 1, NoFence);
    if r.Failure? then Failure(r.error)
    else if r.value.1.InFence? then Failure(UnterminatedFence(r.value.1.line))
    else Success(r.value.0)
  }

  /** `roadmap_items`. */
  method RoadmapItems(lines: seq<string>) returns (r: Result<seq<Item>, RoadmapError>)
    ensures r == Items(lines)
  {
    hide Step;
    var result: seq<Item>, fence := [], NoFence;
    assert lines[0..] == lines;
    PrependTwice([], [], Scan(lines, 1, NoFence));
    for i := 0 to |lines|
      invariant Scan(lines, 1, NoFence) == Prepend(result, Scan(lines[i..], i + 1, fence))
    {
      assert lines[i..][1..] == lines[i + 1..];
      match Step(lines[i], i + 1, fence) {
        case Bad => return Failure(UnknownState(i + 1));
        case Skipped(next) => fence := next;
        case Found(item) =>
          PrependTwice(result, [item], Scan(lines[i + 1..], i + 2, NoFence));
          result := result + [item];
          fence := NoFence;
      }
    }
    assert lines[|lines|..] == [] && result + [] == result;
    return if fence.InFence? then Failure(UnterminatedFence(fence.line)) else Success(result);
  }

  // ---- Composition ---------------------------------------------------------------------------

  /** Scanning a concatenation is scanning its parts in turn. */
  lemma {:induction false} ScanConcat(a: seq<string>, b: seq<string>, number: int, fence: Fence)
    ensures var first := Scan(a, number, fence);
            Scan(a + b, number, fence) ==
              if first.Failure? then first
              else Prepend(first.value.0, Scan(b, number + |a|, first.value.1))
    decreases |a|
  {
    hide Step;
    if a == [] {
      assert a + b == b;
      PrependTwice([], [], Scan(b, number, fence));
    } else {
      assert (a + b)[1..] == a[1..] + b && (a + b)[0] == a[0];
      match Step(a[0], number, fence) {
        case Bad =>
        case Skipped(next) => ScanConcat(a[1..], b, number + 1, next);
        case Found(item) =>
          ScanConcat(a[1..], b, number + 1, NoFence);
          var tail := Scan(a[1..], number + 1, NoFence);
          if tail.Success? {
            PrependTwice([item], tail.value.0, Scan(b, number + |a|, tail.value.1));
          }
      }
    }
  }

  function ShiftItems(items: seq<Item>, offset: int): seq<Item> {
    seq(|items|, i requires 0 <= i < |items| => items[i].(line := items[i].line + offset))
  }

  function ShiftFence(f: Fence, offset: int): Fence {
    if f.InFence? then f.(line := f.line + offset) else f
  }

  function ShiftError(e: RoadmapError, offset: int): RoadmapError {
    e.(line := e.line + offset)
  }

  lemma StepShift(line: string, number: int, fence: Fence, offset: int)
    ensures Step(line, number + offset, ShiftFence(fence, offset)) ==
            match Step(line, number, fence)
            case Bad => Bad
            case Skipped(next) => Skipped(ShiftFence(next, offset))
            case Found(item) => Found(item.(line := item.line + offset))
  {
    hide FenceClosing, FenceOpening, TaskBox, GoldId;
  }

  /** Line numbers are the only thing that depends on where scanning starts. */
  lemma {:induction false} ScanShift(lines: seq<string>, number: int, fence: Fence, offset: int)
    ensures Scan(lines, number + offset, ShiftFence(fence, offset)) ==
            match Scan(lines, number, fence)
            case Failure(e) => Failure(ShiftError(e, offset))
            case Success(v) => Success((ShiftItems(v.0, offset), ShiftFence(v.1, offset)))
    decreases |lines|
  {
    hide Step;
    if lines == [] {
      assert ShiftItems([], offset) == [];
    } else {
      StepShift(lines[0], number, fence, offset);
      match Step(lines[0], number, fence) {
        case Bad =>
        case Skipped(next) => ScanShift(lines[1..], number + 1, next, offset);
        case Found(item) =>
          ScanShift(lines[1..], number + 1, NoFence, offset);
          var tail := Scan(lines[1..], number + 1, NoFence);
          if tail.Success? {
            assert ShiftItems([item] + tail.value.0, offset) ==
                   [item.(line := item.line + offset)] + ShiftItems(tail.value.0, offset);
          }
      }
    }
  }

  /** Parsing composes: after a prefix that parses (so leaves no fence open), the rest parses as
      on its own with shifted line numbers. */
  lemma ItemsCompose(prefix: seq<string>, rest: seq<string>)
    requires Items(prefix).Success?
    ensures Items(prefix + rest) ==
            match Items(rest)
            case Failure(e) => Failure(ShiftError(e, |prefix|))
            case Success(items) => Success(Items(prefix).value + ShiftItems(items, |prefix|))
  {
    hide Step, Scan;
    ScanConcat(prefix, rest, 1, NoFence);
    ScanShift(rest, 1, NoFence, |prefix|);
  }

  // ---- Fenced text ---------------------------------------------------------------------------

  ghost predicate NoneCloses(lines: seq<string>, c: char, n: nat) {
    forall l :: l in lines ==> !FenceClosing(l, c, n)
  }

  lemma {:induction false} FenceSwallows(lines: seq<string>, number: int, fence: Fence)
    requires fence.InFence? && NoneCloses(lines, fence.c, fence.n)
    ensures Scan(lines, number, fence) == Success(([], fence))
    decreases |lines|
  {
    if lines != [] {
      assert lines[0] in lines;
      FenceSwallows(lines[1..], number + 1, fence);
    }
  }

  /** Rewriting lines inside a fence, without closing it, changes nothing. */
  lemma FencedTextIrrelevant(before: seq<string>, inside: seq<string>, other: seq<string>, after: seq<string>)
    requires |inside| == |other|
    requires var r := Scan(before, 1, NoFence);
             r.Success? && r.value.1.InFence? && NoneCloses(inside, r.value.1.c, r.value.1.n) && NoneCloses(other, r.value.1.c, r.value.1.n)
    ensures Items(before + inside + after) == Items(before + other + after)
  {
    hide Step, Scan, NoneCloses;
    var fence := Scan(before, 1, NoFence).value.1;
    FenceSwallows(inside, 1 + |before|, fence);
    FenceSwallows(other, 1 + |before|, fence);
    ScanConcat(before, inside, 1, NoFence);
    ScanConcat(before, other, 1, NoFence);
    ScanConcat(before + inside, after, 1, NoFence);
    ScanConcat(before + other, after, 1, NoFence);
  }

  // ---- Counts and the gate -------------------------------------------------------------------

  const RELEASE_GENERATED := "GOLD-RELEASE-ARTIFACTS"

  // ---- What single lines and fenced blocks mean -----------------------------------------------

  lemma ScanOne(line: string, number: int, fence: Fence)
    ensures Scan([line], number, fence) ==
            match Step(line, number, fence)
            case Bad => Failure(UnknownState(number))
            case Skipped(next) => Success(([], next))
            case Found(item) => Success(([item], NoFence))
  {
    hide Step;
    assert [line][1..] == [];
    ScanNone(number + 1, NoFence);
    if Step(line, number, fence).Skipped? {
      ScanNone(number + 1, Step(line, number, fence).fence);
    } else if Step(line, number, fence).Found? {
      assert [Step(line, number, fence).item] + [] == [Step(line, number, fence).item];
    }
  }

  lemma ScanNone(number: int, fence: Fence)
    ensures Scan([], number, fence) == Success(([], fence))
  {
  }

  lemma {:induction false} RunStops(s: string, c: char, k: nat)
    requires k < |s| && s[k] != c
    ensures RunOf(s, c) <= k && s[RunOf(s, c)] != c
  {
    if s[0] == c {
      RunStops(s[1..], c, k - 1);
    }
  }

  /** No task line opens a fence: behind its spaces comes a tab, a quote sign or a list marker. */
  lemma TaskOpensNoFence(quotes: string, items: seq<(string, string)>, rest: string)
    requires Quotes(quotes) && Markers(items) && items != []
    ensures FenceOpening(quotes + (MarkersText(items) + rest)).None?
  {
    var text := MarkersText(items) + rest;
    var line := quotes + text;
    var mark := items[0].0;
    MarkerRead(mark, "");
    assert text[0] == mark[0];
    assert line[|quotes|] == text[0];
    RunStops(line, ' ', |quotes|);
    var indent := RunOf(line, ' ');
    assert indent < |quotes| ==> line[indent] == quotes[indent];
    assert mark[0] in "-+*" || IsDigit(mark[0]);
    hide RunOf, MarkersText;
  }

  /** A task line outside any fence is one item with its state, its identifier and its body; an
      unknown state is an error. */
  lemma TaskLine(quotes: string, items: seq<(string, string)>, state: string, gap: string, body: string, trail: string)
    requires Quotes(quotes) && Markers(items) && items != [] && StateText(state) && BodyParts(gap, body, trail)
    ensures Items([quotes + (MarkersText(items) + Boxed(state, gap + (body + trail)))]) ==
            if state == " " || state == "x" || state == "X" || state == "~"
            then Success([Item(1, state, GoldId(body), body)]) else Failure(UnknownState(1))
  {
    var line := quotes + (MarkersText(items) + Boxed(state, gap + (body + trail)));
    TaskOpensNoFence(quotes, items, Boxed(state, gap + (body + trail)));
    TaskBoxReads(quotes, items, state, gap, body, trail);
    ScanOne(line, 1, NoFence);
    hide TaskBox, FenceOpening, GoldId, Scan, Quotes, Markers, BodyParts, StateText, MarkersText;
  }

  /** A line outside any fence that is neither task nor fence opening yields nothing. */
  lemma PlainLine(line: string)
    requires FenceOpening(line).None? && TaskBox(line).None?
    ensures Items([line]) == Success([])
  {
    ScanOne(line, 1, NoFence);
    hide TaskBox, FenceOpening, Scan;
  }

  /** Opening line, lines that do not close, closing line: nothing is found and no fence is left. */
  lemma FencedBlock(opening: string, inside: seq<string>, closing: string, number: int, c: char, n: nat)
    requires FenceOpening(opening) == Some((c, n)) && NoneCloses(inside, c, n) && FenceClosing(closing, c, n)
    ensures Scan([opening] + inside + [closing], number, NoFence) == Success(([], NoFence))
  {
    hide FenceOpening, FenceClosing, NoneCloses;
    ScanOne(opening, number, NoFence);
    var fence := InFence(c, n, number);
    FenceSwallows(inside, number + 1, fence);
    ScanOne(closing, number + 1 + |inside|, fence);
    ScanConcat([opening], inside, number, NoFence);
    ScanConcat([opening] + inside, [closing], number, NoFence);
    hide Scan, Step;
  }

  /** A fenced block between two roadmaps contributes nothing but its lines. */
  lemma FencedBlockIgnored(before: seq<string>, indent: nat, c: char, n: nat, info: string, inside: seq<string>,
                           indent': nat, n': nat, blanks: string, after: seq<string>)
    requires indent <= 3 && (c == '`' || c == '~') && 3 <= n && (info == "" || info[0] != c) && (c == '`' ==> '`' !in info)
    requires NoneCloses(inside, c, n)
    requires indent' <= 3 && n <= n' && Blanks(blanks)
    requires Items(before).Success? && Items(after).Success?
    ensures Items(before + ([FenceLine(indent, c, n, info)] + inside + [FenceLine(indent', c, n', blanks)]) + after) ==
            Success(Items(before).value + ShiftItems(Items(after).value, |before| + |inside| + 2))
  {
    hide FenceOpening, FenceClosing, NoneCloses, FenceLine, Blanks, Scan, ShiftItems;
    var opening, closing := FenceLine(indent, c, n, info), FenceLine(indent', c, n', blanks);
    FenceLines(indent, c, n, info, n);
    ClosingLine(indent', c, n', blanks, n);
    var block := [opening] + inside + [closing];
    FencedBlock(opening, inside, closing, 1, c, n);
    assert Items(block) == Success([]);
    hide Items;
    EmptyBetween(before, block, after);
    assert |block| == |inside| + 2;
  }

  lemma ClosingLine(indent: nat, c: char, n: nat, blanks: string, open: nat)
    requires indent <= 3 && (c == '`' || c == '~') && 0 < open <= n && Blanks(blanks)
    ensures FenceClosing(FenceLine(indent, c, n, blanks), c, open)
  {
    hide FenceClosing, FenceOpening, FenceLine;
    BlankRunAll(blanks, "");
    assert blanks + "" == blanks;
    FenceLines(indent, c, n, blanks, open);
  }

  lemma EmptyBetween(before: seq<string>, block: seq<string>, after: seq<string>)
    requires Items(before).Success? && Items(block) == Success([]) && Items(after).Success?
    ensures Items(before + block + after) == Success(Items(before).value + ShiftItems(Items(after).value, |before| + |block|))
  {
    ItemsCompose(before, block);
    assert ShiftItems([], |before|) == [];
    hide Items, ShiftItems;
    assert Items(before).value + [] == Items(before).value;
    ItemsCompose(before + block, after);
  }

  /** Conversely every fence opening has that form. */
  lemma FenceOpeningParses(line: string) returns (indent: nat, info: string)
    requires FenceOpening(line).Some?
    ensures indent <= 3 && (info == "" || info[0] != FenceOpening(line).value.0)
    ensures line == FenceLine(indent, FenceOpening(line).value.0, FenceOpening(line).value.1, info)
    ensures FenceOpening(line).value.0 == '`' || FenceOpening(line).value.0 == '~'
    ensures FenceOpening(line).value.1 >= 3 && (FenceOpening(line).value.0 == '`' ==> '`' !in info)
  {
    indent := RunOf(line, ' ');
    var c, n := FenceOpening(line).value.0, FenceOpening(line).value.1;
    RunSplit(line, ' ');
    RunSplit(line[indent..], c);
    info := line[indent + n..];
    assert line[indent..][n..] == info;
    hide RunOf;
  }

  /** Conversely every line that closes a fence is blank but for enough of its markers. */
  lemma FenceClosingParses(line: string, c: char, open: nat) returns (indent: nat, n: nat, blanks: string)
    requires FenceClosing(line, c, open) && c != ' '
    ensures indent <= 3 && n >= open && Blanks(blanks) && line == FenceLine(indent, c, n, blanks)
  {
    indent := RunOf(line, ' ');
    RunSplit(line, ' ');
    var rest := line[indent..];
    n := RunOf(rest, c);
    RunSplit(rest, c);
    blanks := rest[n..];
    BlankRunSplit(blanks);
    hide RunOf, BlankRun, Blanks, Repeat;
    assert blanks[..|blanks|] == blanks;
  }

  /** A fence that is never closed is an error at its opening line. */
  lemma UnclosedFence(before: seq<string>, indent: nat, c: char, n: nat, info: string, inside: seq<string>)
    requires indent <= 3 && (c == '`' || c == '~') && 3 <= n && (info == "" || info[0] != c) && (c == '`' ==> '`' !in info)
    requires NoneCloses(inside, c, n) && Items(before).Success?
    ensures Items(before + ([FenceLine(indent, c, n, info)] + inside)) == Failure(UnterminatedFence(|before| + 1))
  {
    hide FenceOpening, FenceClosing, NoneCloses, FenceLine;
    var opening := FenceLine(indent, c, n, info);
    FenceLines(indent, c, n, info, n);
    ScanOne(opening, 1, NoFence);
    FenceSwallows(inside, 2, InFence(c, n, 1));
    ScanConcat([opening], inside, 1, NoFence);
    hide Scan, Step;
    assert Items([opening] + inside) == Failure(UnterminatedFence(1));
    ItemsCompose(before, [opening] + inside);
  }

  lemma {:induction false} RunSplit(s: string, c: char)
    ensures s == Repeat(c, RunOf(s, c)) + s[RunOf(s, c)..] && (RunOf(s, c) < |s| ==> s[RunOf(s, c)] != c)
  {
    if s != "" && s[0] == c {
      RunSplit(s[1..], c);
      assert s == [c] + s[1..];
      assert s[1..][RunOf(s[1..], c)..] == s[RunOf(s, c)..];
    }
  }

  /** Conversely every identifier read stands in bold at the start, with a space or nothing after it. */
  lemma GoldIdParses(body: string) returns (id: string, rest: string)
    requires GoldId(body).Some?
    ensures id != "" && forall i :: 0 <= i < |id| ==> InIdentifier(id[i])
    ensures GoldId(body).value == "GOLD-" + id && body == GOLD + id + "**" + rest && (rest == "" || IsSpace(rest[0]))
  {
    var tail := body[|GOLD|..];
    var n := IdentifierRun(tail);
    IdentifierRunSplit(tail);
    id, rest := tail[..n], tail[n + 2..];
    hide IsSpace, InIdentifier, IdentifierRun;
    GoldParts(body, tail, n);
    assert rest != "" ==> rest[0] == tail[n + 2];
  }

  lemma GoldParts(body: string, tail: string, n: nat)
    requires GOLD <= body && tail == body[|GOLD|..] && n + 2 <= |tail| && "**" <= tail[n..]
    ensures body == GOLD + tail[..n] + "**" + tail[n + 2..]
  {
    PrefixAndRest(GOLD, body);
    PrefixAndRest(tail[..n], tail);
    PrefixAndRest("**", tail[n..]);
    assert tail[n..][2..] == tail[n + 2..];
  }

  lemma {:induction false} IdentifierRunSplit(s: string)
    ensures forall i :: 0 <= i < IdentifierRun(s) ==> InIdentifier(s[i])
  {
    if s != "" && InIdentifier(s[0]) {
      IdentifierRunSplit(s[1..]);
      assert forall i :: 1 <= i < IdentifierRun(s) ==> s[i] == s[1..][i - 1];
    }
  }

  /** The items that satisfy a test, in order. */
  function Filter(items: seq<Item>, test: Item -> bool): (r: seq<Item>)
    ensures forall i :: i in r <==> i in items && test(i)
  {
    if items == [] then []
    else
      assert items == [items[0]] + items[1..];
      if test(items[0]) then [items[0]] + Filter(items[1..], test) else Filter(items[1..], test)
  }

  /** How many items have this state. */
  function WithState(items: seq<Item>, state: string): nat {
    if items == [] then 0 else (if items[0].state == state then 1 else 0) + WithState(items[1..], state)
  }

  function WithIdentifier(items: seq<Item>, identifier: string): nat {
    if items == [] then 0 else (if items[0].identifier == Some(identifier) then 1 else 0) + WithIdentifier(items[1..], identifier)
  }

  /** The summary counts the items by state and identifier. */
  lemma {:induction false} SummaryCounts(items: seq<Item>)
    ensures var s := SummaryOf(items);
            && s.total == |items| && s.complete == WithState(items, "x") + WithState(items, "X")
            && s.open == WithState(items, " ") && s.partial == WithState(items, "~")
            && s.releaseGeneratedItems == WithIdentifier(items, "GOLD-RELEASE-ARTIFACTS")
  {
    assert "x" != "X" by { assert "x"[0] != "X"[0]; }
    if items != [] {
      SummaryCounts(items[1..]);
    }
  }

  /** Nothing blocks a release tag exactly if every open or partial item is the generated one. */
  lemma NoTagBlockers(items: seq<Item>)
    ensures SummaryOf(items).releaseTagBlockers == 0 <==>
            forall i :: i in items && (i.state == " " || i.state == "~") ==> i.identifier == Some("GOLD-RELEASE-ARTIFACTS")
  {
    hide Filter;
    FilterEmpty(Filter(items, Blocking), Manual);
    assert forall i :: i in Filter(items, Blocking) <==> i in items && Blocking(i);
  }

  predicate Complete(i: Item) { i.state == "x" || i.state == "X" }
  predicate Open(i: Item) { i.state == " " }
  predicate Partial(i: Item) { i.state == "~" }
  predicate Blocking(i: Item) { i.state == " " || i.state == "~" }
  predicate Generated(i: Item) { i.identifier == Some(RELEASE_GENERATED) }
  predicate Manual(i: Item) { !Generated(i) }

  datatype Summary = Summary(total: nat, complete: nat, open: nat, partial: nat, rawBlockers: nat,
                             releaseTagBlockers: nat, releaseGeneratedItems: nat)

  function SummaryOf(items: seq<Item>): Summary {
    Summary(|items|, |Filter(items, Complete)|, |Filter(items, Open)|, |Filter(items, Partial)|,
            |Filter(items, Blocking)|, |Filter(Filter(items, Blocking), Manual)|, |Filter(items, Generated)|)
  }

  lemma {:induction false} ScanStates(lines: seq<string>, number: int, fence: Fence)
    ensures var r := Scan(lines, number, fence);
            r.Success? ==> forall i :: i in r.value.0 ==> i.state in [" ", "x", "X", "~"]
    decreases |lines|
  {
    hide FenceClosing, FenceOpening, TaskBox, GoldId;
    if lines != [] {
      match Step(lines[0], number, fence) {
        case Bad =>
        case Skipped(next) => ScanStates(lines[1..], number + 1, next);
        case Found(item) => ScanStates(lines[1..], number + 1, NoFence);
      }
    }
  }

  /** Exactly one of complete, open and partial, and blocking unless complete. */
  predicate SingleKind(i: Item) {
    || (Complete(i) && !Open(i) && !Partial(i) && !Blocking(i))
    || (!Complete(i) && Open(i) && !Partial(i) && Blocking(i))
    || (!Complete(i) && !Open(i) && Partial(i) && Blocking(i))
  }

  lemma {:induction false} CountsAddUp(items: seq<Item>)
    requires forall i :: i in items ==> i.state in [" ", "x", "X", "~"]
    ensures var s := SummaryOf(items);
            s.total == s.complete + s.open + s.partial && s.rawBlockers == s.open + s.partial
  {
    if items != [] {
      CountsAddUp(items[1..]);
      assert items[0] in items;
      assert SingleKind(items[0]);
    }
  }

  /** Every parsed roadmap is counted completely. */
  lemma SummaryAddsUp(lines: seq<string>)
    requires Items(lines).Success?
    ensures var s := SummaryOf(Items(lines).value);
            s.total == s.complete + s.open + s.partial && s.rawBlockers == s.open + s.partial
  {
    ScanStates(lines, 1, NoFence);
    hide Scan, Filter;
    CountsAddUp(Items(lines).value);
  }

  datatype GateError = Malformed(error: RoadmapError) | NotExactlyOneGenerated | PartialGenerated | WorkRemains(items: seq<Item>)

  /** The decision on parsed items. */
  function Decide(items: seq<Item>, allowGenerated: bool): Outcome<GateError> {
    var blocking, generated := Filter(items, Blocking), Filter(items, Generated);
    if allowGenerated && |generated| != 1 then Fail(NotExactlyOneGenerated)
    else if allowGenerated && Partial(generated[0]) then Fail(PartialGenerated)
    else
      var remaining := if allowGenerated then Filter(blocking, Manual) else blocking;
      if remaining == [] then Pass else Fail(WorkRemains(remaining))
  }

  /** `require_release_ready`. */
  function RequireReleaseReady(lines: seq<string>, allowGenerated: bool): Outcome<GateError> {
    var parsed := Items(lines);
    if parsed.Failure? then Fail(Malformed(parsed.error)) else Decide(parsed.value, allowGenerated)
  }

  lemma StateKinds(items: seq<Item>)
    requires forall i :: i in items ==> i.state in [" ", "x", "X", "~"]
    ensures forall i :: i in items ==> (Blocking(i) <==> !Complete(i)) && (Complete(i) || Open(i) || Partial(i))
  {
  }

  lemma StrictDecision(items: seq<Item>)
    requires forall i :: i in items ==> (Blocking(i) <==> !Complete(i))
    ensures Decide(items, false).Pass? <==> forall i :: i in items ==> Complete(i)
  {
    hide Filter, Complete, Blocking, Generated, Partial;
    FilterEmpty(items, Blocking);
  }

  lemma OneGenerated(items: seq<Item>)
    requires |Filter(items, Generated)| == 1
    ensures Partial(Filter(items, Generated)[0]) <==> exists i :: i in items && Generated(i) && Partial(i)
  {
    hide Filter, Generated, Partial;
    var generated := Filter(items, Generated);
    assert generated[0] in generated;
    assert forall i :: i in generated ==> i == generated[0];
  }

  lemma TagDecision(items: seq<Item>)
    ensures Decide(items, true).Pass? <==>
            && |Filter(items, Generated)| == 1 && |Filter(Filter(items, Blocking), Manual)| == 0
            && forall i :: i in items && Generated(i) ==> !Partial(i)
  {
    hide Filter, Blocking, Generated, Partial;
    if |Filter(items, Generated)| == 1 {
      OneGenerated(items);
    }
  }

  lemma TagPassMeans(items: seq<Item>)
    requires forall i :: i in items ==> (Blocking(i) <==> !Complete(i)) && (Complete(i) || Open(i) || Partial(i))
    requires Decide(items, true).Pass?
    ensures forall i :: i in items && !Complete(i) ==> Generated(i) && Open(i)
  {
    TagDecision(items);
    hide Filter, Complete, Open, Blocking, Generated, Partial, Decide;
    FilterEmpty(Filter(items, Blocking), Manual);
    assert forall i :: i in Filter(items, Blocking) <==> i in items && Blocking(i);
  }

  /** Without the exception the gate passes exactly when nothing is open or partial; for a release
      tag exactly when one generated item exists, it is not partial, and nothing else blocks. */
  lemma GateDecides(lines: seq<string>)
    ensures RequireReleaseReady(lines, false).Pass? <==>
            Items(lines).Success? && forall i :: i in Items(lines).value ==> Complete(i)
    ensures RequireReleaseReady(lines, true).Pass? <==>
            && Items(lines).Success?
            && SummaryOf(Items(lines).value).releaseGeneratedItems == 1
            && SummaryOf(Items(lines).value).releaseTagBlockers == 0
            && forall i :: i in Items(lines).value && Generated(i) ==> !Partial(i)
    ensures RequireReleaseReady(lines, true).Pass? ==>
            forall i :: i in Items(lines).value && !Complete(i) ==> Generated(i) && Open(i)
  {
    ScanStates(lines, 1, NoFence);
    hide Scan, Filter, Decide, Complete, Open, Partial, Blocking, Generated;
    if Items(lines).Success? {
      var items := Items(lines).value;
      StateKinds(items);
      StrictDecision(items);
      TagDecision(items);
      if Decide(items, true).Pass? {
        TagPassMeans(items);
      }
    }
  }

  lemma FilterEmpty(items: seq<Item>, test: Item -> bool)
    ensures Filter(items, test) == [] <==> forall i :: i in items ==> !test(i)
  {
    if Filter(items, test) != [] {
      assert Filter(items, test)[0] in Filter(items, test);
    }
  }
}
