/** The marked-section rewrite of THIRD_PARTY_LICENSES
    (packaging/generate_rust_notices.py:637-680), including the newline translation of reading:
    exactly when writing and then checking passes, and what a rewrite keeps. */
module NoticeSection {
  import opened Outcomes
  import opened TextSearch

  const SUBJECT := "RUST DISTRIBUTION LICENSES -->"
  const MARKER_START := "<!-- BEGIN GENERATED: " + SUBJECT
  const MARKER_END := "<!-- END GENERATED: " + SUBJECT
  const KEET_MARKER := "<!-- BEGIN GENERATED: KEET DESKTOP RUNTIME LICENSES -->"

  /** `replace_generated_section`; `None` is the malformed-marker exit. */
  function ReplaceSection(current: string, generated: string): Option<string> {
    var start, end := Find(current, MARKER_START), Find(current, MARKER_END);
    if (start == -1) != (end == -1) || (start != -1 && end < start) then None
    else if start == -1 then
      var insertion := Find(current, KEET_MARKER);
      if insertion == -1 then Some(Rstrip(current) + "\n\n" + generated)
      else Some(Rstrip(current[..insertion]) + "\n\n" + generated + "\n" + current[insertion..])
    else Some(current[..start] + Rstrip(generated) + current[end + |MARKER_END|..])
  }

  function WithFinalNewline(s: string): string {
    if s != "" && s[|s| - 1] == '\n' then s else s + "\n"
  }

  /** The new content that `--write` stores and `--check` compares with. */
  function NextContent(current: string, generated: string): Option<string> {
    var replaced := ReplaceSection(current, generated);
    if replaced.None? then None else Some(WithFinalNewline(replaced.value))
  }

  /** Text mode reads CR LF and CR as LF; writing with `newline="\n"` translates nothing. */
  function ReadBack(stored: string): string {
    if stored == "" then ""
    else if stored[0] != '\r' then [stored[0]] + ReadBack(stored[1..])
    else if |stored| > 1 && stored[1] == '\n' then "\n" + ReadBack(stored[2..])
    else "\n" + ReadBack(stored[1..])
  }

  /** `--write`: what the file holds afterwards; `None` is the malformed-marker exit. */
  function Write(stored: string, generated: string): Option<string> {
    NextContent(ReadBack(stored), generated)
  }

  /** `--check` passes. */
  predicate CheckPasses(stored: string, generated: string) {
    NextContent(ReadBack(stored), generated) == Some(ReadBack(stored))
  }

  /** A generated block starts with the start marker and, up to trailing space, has its only end
      marker last. */
  ghost predicate GeneratedBlock(generated: string) {
    var block := Rstrip(generated);
    MARKER_START <= generated && |MARKER_END| <= |block| && Find(block, MARKER_END) == |block| - |MARKER_END|
  }

  // ---- Marker positions ----------------------------------------------------------------------

  lemma MarkerFacts()
    ensures '\n' !in MARKER_START && '\n' !in MARKER_END
    ensures 0 < |MARKER_END| <= |MARKER_START| && !IsSpace(MARKER_START[|MARKER_START| - 1])
  {
    assert '\n' !in SUBJECT && '\n' !in "<!-- BEGIN GENERATED: " && '\n' !in "<!-- END GENERATED: ";
  }

  lemma BlockStartsWithMarker(generated: string)
    requires MARKER_START <= generated
    ensures MARKER_START <= Rstrip(generated)
  {
    MarkerFacts();
    var block := Rstrip(generated);
    assert generated[|MARKER_START| - 1] == MARKER_START[|MARKER_START| - 1];
    assert |block| >= |MARKER_START|;
  }

  /** `pattern` does not begin in `a` when `opening` follows it. */
  ghost predicate CleanBefore(a: string, opening: string, pattern: string) {
    forall k :: 0 <= k < |a| ==> !OccursAt(a + opening, pattern, k)
  }

  lemma NotBefore(a: string, opening: string, w: string, pattern: string, k: int)
    requires CleanBefore(a, opening, pattern) && a + opening <= w && |pattern| <= |opening| && 0 <= k < |a|
    ensures !OccursAt(w, pattern, k)
  {
    if OccursAt(w, pattern, k) {
      SameStretch(w, a + opening, pattern, k);
    }
  }

  lemma OccursInside(a: string, block: string, rest: string, pattern: string, i: int)
    requires 0 <= i && i + |pattern| <= |block|
    ensures OccursAt(a + block + rest, pattern, |a| + i) <==> OccursAt(block, pattern, i)
  {
    var w := a + block + rest;
    assert w[|a| + i..|a| + i + |pattern|] == block[i..i + |pattern|];
  }

  lemma BlockOpens(a: string, block: string, rest: string, opening: string)
    requires opening <= block && opening != "" && CleanBefore(a, opening, opening)
    ensures Find(a + block + rest, opening) == |a|
  {
    var w := a + block + rest;
    assert a + opening <= w;
    assert w[|a|..|a| + |opening|] == opening;
    assert OccursAt(w, opening, |a|);
    var k := Find(w, opening);
    if k < |a| {
      NotBefore(a, opening, w, opening, k);
    }
  }

  lemma BlockCloses(a: string, block: string, rest: string, opening: string, closing: string)
    requires opening <= block && |closing| <= |opening| && 0 < |closing| <= |block|
    requires Find(block, closing) == |block| - |closing| && CleanBefore(a, opening, closing)
    ensures Find(a + block + rest, closing) == |a| + |block| - |closing|
  {
    var w := a + block + rest;
    var last := |a| + |block| - |closing|;
    assert a + opening <= w;
    hide Find, OccursAt, CleanBefore;
    OccursInside(a, block, rest, closing, |block| - |closing|);
    forall k | 0 <= k < last ensures !OccursAt(w, closing, k) {
      if k < |a| {
        NotBefore(a, opening, w, closing, k);
      } else {
        OccursInside(a, block, rest, closing, k - |a|);
        NotEarlier(block, closing, k - |a|);
      }
    }
    FindIs(w, closing, last);
  }

  lemma NotEarlier(s: string, pattern: string, k: int)
    requires 0 <= k < Find(s, pattern)
    ensures !OccursAt(s, pattern, k)
  {
    hide Find;
  }

  lemma FindIs(s: string, pattern: string, k: int)
    requires OccursAt(s, pattern, k) && forall i :: 0 <= i < k ==> !OccursAt(s, pattern, i)
    ensures Find(s, pattern) == k
  {
    FoundAt(s, pattern, k);
    FoundInRange(s, pattern);
    hide Find, OccursAt;
  }

  lemma FoundAt(s: string, pattern: string, k: int)
    requires OccursAt(s, pattern, k)
    ensures 0 <= k && k + |pattern| <= |s|
  {
  }

  /** Around a block the first start marker opens it and the first end marker closes it. */
  ghost predicate Delimited(w: string, a: string, block: string) {
    && |MARKER_END| <= |block|
    && Find(w, MARKER_START) == |a| && Find(w, MARKER_END) == |a| + |block| - |MARKER_END|
    && a + block <= w
  }

  lemma BlockDelimited(a: string, generated: string, rest: string)
    requires GeneratedBlock(generated)
    requires CleanBefore(a, MARKER_START, MARKER_START) && CleanBefore(a, MARKER_START, MARKER_END)
    ensures Delimited(a + Rstrip(generated) + rest, a, Rstrip(generated))
  {
    MarkerFacts();
    BlockStartsWithMarker(generated);
    hide IsSpace, Find;
    BlockOpens(a, Rstrip(generated), rest, MARKER_START);
    BlockCloses(a, Rstrip(generated), rest, MARKER_START, MARKER_END);
  }

  // ---- The three cases -----------------------------------------------------------------------

  /** In a file that already has the markers, nothing marker-like precedes the section. */
  lemma CleanBeforeExisting(current: string, opening: string, pattern: string, start: int)
    requires OccursAt(current, opening, start) && |pattern| <= |opening|
    requires forall k :: 0 <= k < start ==> !OccursAt(current, pattern, k)
    ensures CleanBefore(current[..start], opening, pattern)
  {
    var a := current[..start];
    assert a + opening <= current;
    forall k | 0 <= k < |a| ensures !OccursAt(a + opening, pattern, k) {
      if OccursAt(a + opening, pattern, k) {
        SameStretch(a + opening, current, pattern, k);
      }
    }
  }

  /** A blank line separates a fresh section from text without markers. */
  lemma CleanBeforeFresh(text: string, opening: string, pattern: string)
    requires '\n' !in pattern && pattern != "" && forall k :: !OccursAt(text, pattern, k)
    ensures CleanBefore(text + "\n\n", opening, pattern)
  {
    var a := text + "\n\n";
    var head := a + opening;
    forall k | 0 <= k < |a| ensures !OccursAt(head, pattern, k) {
      if k + |pattern| <= |text| {
        if OccursAt(head, pattern, k) {
          SameStretch(head, text, pattern, k);
        }
      } else {
        NewlineBlocks(head, pattern, k, if k <= |text| then |text| else |text| + 1);
      }
    }
  }

  lemma NewlineBlocks(s: string, pattern: string, k: int, i: int)
    requires '\n' !in pattern && 0 <= k <= i < k + |pattern| && i < |s| && s[i] == '\n'
    ensures !OccursAt(s, pattern, k)
  {
    if k + |pattern| <= |s| {
      assert s[k..k + |pattern|][i - k] == s[i];
    }
  }

  lemma AbsentFromPrefix(s: string, t: string, pattern: string)
    requires t <= s && forall k :: !OccursAt(s, pattern, k)
    ensures forall k :: !OccursAt(t, pattern, k)
  {
    forall k ensures !OccursAt(t, pattern, k) {
      if OccursAt(t, pattern, k) {
        SameStretch(t, s, pattern, k);
      }
    }
  }

  /** Every successful rewrite puts the block between clean text and some remainder. */
  lemma RewriteForm(current: string, generated: string) returns (a: string, rest: string)
    requires ReplaceSection(current, generated).Some?
    ensures ReplaceSection(current, generated).value == a + Rstrip(generated) + rest
    ensures '\r' !in current ==> '\r' !in a
    ensures CleanBefore(a, MARKER_START, MARKER_START) && CleanBefore(a, MARKER_START, MARKER_END)
    ensures Find(current, MARKER_START) != -1 ==>
              a == current[..Find(current, MARKER_START)] &&
              rest == current[Find(current, MARKER_END) + |MARKER_END|..]
  {
    hide IsSpace, Find, Rstrip, CleanBefore, GeneratedBlock, OccursAt;
    var start, end := Find(current, MARKER_START), Find(current, MARKER_END);
    if start != -1 {
      FoundInRange(current, MARKER_START);
      ExistingIsClean(current);
      a, rest := current[..start], current[end + |MARKER_END|..];
    } else {
      MarkerFacts();
      var insertion := Find(current, KEET_MARKER);
      FoundInRange(current, KEET_MARKER);
      var text := if insertion == -1 then current else current[..insertion];
      var tail := if insertion == -1 then "" else "\n" + current[insertion..];
      FreshForm(Rstrip(text), generated, tail);
      a, rest := Rstrip(text) + "\n\n", generated[|Rstrip(generated)|..] + tail;
      assert '\r' !in current ==> '\r' !in Rstrip(text);
      FreshIsClean(current, Rstrip(text), MARKER_START);
      FreshIsClean(current, Rstrip(text), MARKER_END);
    }
  }

  lemma FoundInRange(s: string, pattern: string)
    ensures Find(s, pattern) == -1 || 0 <= Find(s, pattern) <= Find(s, pattern) + |pattern| <= |s|
  {
  }

  lemma ExistingIsClean(current: string)
    requires 0 <= Find(current, MARKER_START) <= Find(current, MARKER_END)
    ensures CleanBefore(current[..Find(current, MARKER_START)], MARKER_START, MARKER_START)
    ensures CleanBefore(current[..Find(current, MARKER_START)], MARKER_START, MARKER_END)
    ensures Find(current, MARKER_END) + |MARKER_END| <= |current|
  {
    MarkerFacts();
    hide IsSpace, CleanBefore, Find;
    var start := Find(current, MARKER_START);
    CleanBeforeExisting(current, MARKER_START, MARKER_START, start);
    CleanBeforeExisting(current, MARKER_START, MARKER_END, start);
  }

  lemma FreshForm(text: string, generated: string, tail: string)
    ensures var block := Rstrip(generated);
            text + "\n\n" + generated + tail == text + "\n\n" + block + (generated[|block|..] + tail)
  {
    hide IsSpace;
    assert generated == Rstrip(generated) + generated[|Rstrip(generated)|..];
  }

  lemma FreshIsClean(current: string, text: string, pattern: string)
    requires text <= current && '\n' !in pattern && pattern != "" && Find(current, pattern) == -1
    ensures CleanBefore(text + "\n\n", MARKER_START, pattern)
  {
    hide Find, CleanBefore, OccursAt;
    forall k ensures !OccursAt(current, pattern, k) {
      NegativeIndex(current, pattern, k);
    }
    AbsentFromPrefix(current, text, pattern);
    CleanBeforeFresh(text, MARKER_START, pattern);
  }

  lemma NegativeIndex(s: string, pattern: string, k: int)
    ensures k < 0 ==> !OccursAt(s, pattern, k)
  {
  }

  /** Rewriting a delimited file changes nothing. */
  lemma DelimitedIsFixed(a: string, generated: string, rest: string)
    requires Delimited(a + Rstrip(generated) + rest, a, Rstrip(generated))
    ensures ReplaceSection(a + Rstrip(generated) + rest, generated) == Some(a + Rstrip(generated) + rest)
  {
    hide IsSpace, Find;
    var block := Rstrip(generated);
    var w := a + block + rest;
    assert w[..|a|] == a && w[|a| + |block|..] == rest;
  }

  // ---- Writing, then checking ----------------------------------------------------------------

  lemma {:induction false} ReadBackClean(s: string)
    ensures '\r' !in ReadBack(s)
    decreases |s|
  {
    if s != "" {
      if s[0] == '\r' && |s| > 1 && s[1] == '\n' {
        ReadBackClean(s[2..]);
      } else {
        ReadBackClean(s[1..]);
      }
    }
  }

  /** Text without a carriage return is read as it is stored, whatever follows it. */
  lemma {:induction false} ReadBackPrefix(clean: string, rest: string)
    requires '\r' !in clean
    ensures ReadBack(clean + rest) == clean + ReadBack(rest)
  {
    if clean == "" {
      assert clean + rest == rest;
      assert clean + ReadBack(rest) == ReadBack(rest);
    } else {
      ReadBackPrefix(clean[1..], rest);
      assert (clean + rest)[1..] == clean[1..] + rest;
      assert clean == [clean[0]] + clean[1..];
    }
  }

  /** Reading changes a file exactly if it holds a carriage return. */
  lemma ReadBackFixed(s: string)
    ensures ReadBack(s) == s <==> '\r' !in s
  {
    ReadBackClean(s);
    if '\r' !in s {
      ReadBackPrefix(s, "");
      assert s + "" == s;
    }
  }

  predicate EndsLine(s: string) {
    s != "" && s[|s| - 1] == '\n'
  }

  lemma {:induction false} ReadBackEnds(s: string)
    requires EndsLine(s)
    ensures EndsLine(ReadBack(s))
    decreases |s|
  {
    var rest := if s[0] == '\r' && |s| > 1 && s[1] == '\n' then s[2..] else s[1..];
    if rest != "" {
      ReadBackEnds(rest);
    }
  }

  /** Whatever the markers are, new content holds the whole block. */
  lemma NextHoldsBlock(current: string, generated: string, c: char)
    requires NextContent(current, generated).Some? && c in Rstrip(generated)
    ensures c in NextContent(current, generated).value
  {
    hide Find, Rstrip, IsSpace, ReplaceSection, CleanBefore;
    var a, rest := RewriteForm(current, generated);
  }

  /** Where the first end marker of a rewritten file is, counted from the start of the block. */
  lemma EndAfterStart(a: string, block: string, rest: string)
    requires MARKER_START <= block
    requires CleanBefore(a, MARKER_START, MARKER_START) && CleanBefore(a, MARKER_START, MARKER_END)
    ensures var w := a + block + rest;
            Find(w, MARKER_START) == |a| && (Find(w, MARKER_END) == -1 || Find(w, MARKER_END) >= |a|)
  {
    MarkerFacts();
    hide IsSpace, Find, OccursAt;
    BlockOpens(a, block, rest, MARKER_START);
    var w := a + block + rest;
    assert a + MARKER_START <= w;
    var k := Find(w, MARKER_END);
    FoundInRange(w, MARKER_END);
    if 0 <= k < |a| {
      NotBefore(a, MARKER_START, w, MARKER_END, k);
    }
  }

  /** A rewrite that keeps the length found the end marker exactly at the end of the block. */
  lemma SameLengthMeansLast(a: string, generated: string, rest: string)
    requires MARKER_START <= Rstrip(generated) && EndsLine(a + Rstrip(generated) + rest)
    requires CleanBefore(a, MARKER_START, MARKER_START) && CleanBefore(a, MARKER_START, MARKER_END)
    requires NextContent(a + Rstrip(generated) + rest, generated) == Some(a + Rstrip(generated) + rest)
    ensures |MARKER_END| <= |Rstrip(generated)|
    ensures Find(a + Rstrip(generated) + rest, MARKER_END) == |a| + |Rstrip(generated)| - |MARKER_END|
  {
    var block := Rstrip(generated);
    var w := a + block + rest;
    EndAfterStart(a, block, rest);
    hide IsSpace, Find, OccursAt, Rstrip, CleanBefore, EndsLine, WithFinalNewline;
    FoundInRange(w, MARKER_END);
    EndBeforeNewline(w);
    var end := Find(w, MARKER_END) + |MARKER_END|;
    assert ReplaceSection(w, generated) == Some(w[..|a|] + block + w[end..]);
    SpliceLength(a, block, rest, end);
  }

  /** Putting the block back in place of a stretch keeps a file only if the stretch ends with it. */
  lemma SpliceLength(a: string, block: string, rest: string, end: nat)
    requires var w := a + block + rest;
             EndsLine(w) && end < |w| && WithFinalNewline(w[..|a|] + block + w[end..]) == w
    ensures end == |a| + |block|
  {
    var w := a + block + rest;
    var once := w[..|a|] + block + w[end..];
    assert once[|once| - 1] == w[|w| - 1];
  }

  /** The end marker holds no newline, so it does not end a file that ends with one. */
  lemma EndBeforeNewline(w: string)
    requires EndsLine(w) && Find(w, MARKER_END) != -1
    ensures Find(w, MARKER_END) + |MARKER_END| < |w|
  {
    MarkerFacts();
    hide IsSpace, Find;
    var k := Find(w, MARKER_END);
    assert OccursAt(w, MARKER_END, k);
    if k + |MARKER_END| == |w| {
      NewlineBlocks(w, MARKER_END, k, |w| - 1);
    }
  }

  /** The first end marker of the file is the first of the block, if it lies inside. */
  lemma FirstInBlock(a: string, block: string, rest: string, pattern: string)
    requires 0 < |pattern| <= |block| && Find(a + block + rest, pattern) == |a| + |block| - |pattern|
    ensures Find(block, pattern) == |block| - |pattern|
  {
    hide Find, OccursAt;
    var w, last := a + block + rest, |block| - |pattern|;
    OccursInside(a, block, rest, pattern, last);
    var k := Find(block, pattern);
    FoundInRange(block, pattern);
    if 0 <= k < last {
      OccursInside(a, block, rest, pattern, k);
    }
  }

  /** A file with the block between clean text and a remainder is its own next content exactly if
      the block has its only end marker last. */
  lemma FixedExactly(a: string, generated: string, rest: string)
    requires MARKER_START <= generated && EndsLine(a + Rstrip(generated) + rest)
    requires CleanBefore(a, MARKER_START, MARKER_START) && CleanBefore(a, MARKER_START, MARKER_END)
    ensures NextContent(a + Rstrip(generated) + rest, generated) == Some(a + Rstrip(generated) + rest) <==>
            GeneratedBlock(generated)
  {
    hide IsSpace, Find, CleanBefore, ReplaceSection, Rstrip, OccursAt;
    MarkerFacts();
    BlockStartsWithMarker(generated);
    var block := Rstrip(generated);
    var w := a + block + rest;
    if GeneratedBlock(generated) {
      BlockDelimited(a, generated, rest);
      DelimitedIsFixed(a, generated, rest);
    }
    if NextContent(w, generated) == Some(w) {
      SameLengthMeansLast(a, generated, rest);
      FirstInBlock(a, block, rest, MARKER_END);
    }
  }

  lemma WrittenForm(current: string, generated: string) returns (a: string, rest: string)
    requires NextContent(current, generated).Some?
    ensures NextContent(current, generated).value == a + Rstrip(generated) + rest
    ensures EndsLine(NextContent(current, generated).value)
    ensures CleanBefore(a, MARKER_START, MARKER_START) && CleanBefore(a, MARKER_START, MARKER_END)
    ensures '\r' !in current ==> '\r' !in a
    ensures Find(current, MARKER_START) != -1 ==>
              && a == current[..Find(current, MARKER_START)]
              && (var after := current[Find(current, MARKER_END) + |MARKER_END|..]; rest == after || rest == after + "\n")
  {
    hide IsSpace, Find, Rstrip, ReplaceSection, CleanBefore, OccursAt;
    a, rest := RewriteForm(current, generated);
    var once := ReplaceSection(current, generated).value;
    if WithFinalNewline(once) != once {
      rest := rest + "\n";
    }
  }

  /** Without newline translation: the new content is its own next content exactly if the block has
      its only end marker last. */
  lemma RewriteIdempotent(current: string, generated: string)
    requires MARKER_START <= generated && NextContent(current, generated).Some?
    ensures NextContent(NextContent(current, generated).value, generated) == NextContent(current, generated) <==>
            GeneratedBlock(generated)
  {
    hide IsSpace, Find, GeneratedBlock, ReplaceSection, CleanBefore, Rstrip;
    var a, rest := WrittenForm(current, generated);
    FixedExactly(a, generated, rest);
  }

  /** Writing and then checking passes exactly if the block has its only end marker last and holds no
      carriage return: the check reads one as a newline, but would write it again. */
  lemma WriteThenCheck(stored: string, generated: string)
    requires MARKER_START <= generated && Write(stored, generated).Some?
    ensures CheckPasses(Write(stored, generated).value, generated) <==>
            GeneratedBlock(generated) && '\r' !in Rstrip(generated)
  {
    hide IsSpace, Find, GeneratedBlock, NextContent, CleanBefore, Rstrip, ReadBack, EndsLine;
    var current, block := ReadBack(stored), Rstrip(generated);
    ReadBackClean(stored);
    var a, rest := WrittenForm(current, generated);
    var written := a + block + rest;
    var back := ReadBack(written);
    ReadBackClean(written);
    if '\r' in block {
      if CheckPasses(written, generated) {
        NextHoldsBlock(back, generated, '\r');
      }
    } else {
      ReadBackPrefix(a + block, rest);
      ReadBackEnds(written);
      FixedExactly(a, generated, ReadBack(rest));
    }
  }

  lemma BeforeTheEnd(body: string, k: int)
    requires '<' !in body && 0 <= k < |MARKER_START| + |body|
    ensures !OccursAt(MARKER_START + body + MARKER_END, MARKER_END, k)
  {
    var s := MARKER_START + body + MARKER_END;
    assert '<' !in SUBJECT && '<' !in "!-- BEGIN GENERATED: ";
    assert MARKER_END[0] == '<' && MARKER_END[5] == 'E' && MARKER_START[5] == 'B';
    assert s[5] == 'B';
    if k == 0 {
      assert s[0..|MARKER_END|][5] == s[5];
    } else {
      OneBracket(k);
      assert s[k] != '<';
      if k + |MARKER_END| <= |s| {
        assert s[k..k + |MARKER_END|][0] == s[k];
      }
    }
  }

  lemma OneBracket(k: int)
    ensures 0 < k < |MARKER_START| ==> MARKER_START[k] != '<'
  {
    var head, tail := "<!-- BEGIN GENERATED: ", SUBJECT;
    assert '<' !in tail && '<' !in head[1..];
    assert 0 < k < |head| ==> MARKER_START[k] == head[1..][k - 1];
    assert |head| <= k < |MARKER_START| ==> MARKER_START[k] == tail[k - |head|];
  }

  /** Blocks of the demanded form: any body without an angle bracket. */
  lemma SimpleBlock(body: string)
    requires '<' !in body
    ensures var generated := MARKER_START + body + MARKER_END; GeneratedBlock(generated) && Rstrip(generated) == generated
  {
    var s := MARKER_START + body + MARKER_END;
    var last := |MARKER_START| + |body|;
    assert s[last..] == MARKER_END;
    assert OccursAt(s, MARKER_END, last);
    forall k | 0 <= k < last ensures !OccursAt(s, MARKER_END, k) {
      BeforeTheEnd(body, k);
    }
    assert s[|s| - 1] == '>';
    hide OccursAt, Find;
    assert Find(s, MARKER_END) == last;
  }

  /** A carriage return in the block makes every check after a write report stale notices. */
  lemma CarriageReturnIsStale(stored: string)
    ensures var generated := MARKER_START + "\r" + MARKER_END;
            GeneratedBlock(generated) && (Write(stored, generated).Some? ==> !CheckPasses(Write(stored, generated).value, generated))
  {
    var generated := MARKER_START + "\r" + MARKER_END;
    SimpleBlock("\r");
    assert generated[|MARKER_START|] == '\r';
    hide GeneratedBlock, Write, CheckPasses, Rstrip;
    if Write(stored, generated).Some? {
      WriteThenCheck(stored, generated);
    }
  }

  /** The text before and after the marked section of a file that has one. */
  ghost function Surroundings(s: string): (string, string)
    requires 0 <= Find(s, MARKER_START) <= Find(s, MARKER_END)
  {
    (s[..Find(s, MARKER_START)], s[Find(s, MARKER_END) + |MARKER_END|..])
  }

  lemma DelimitedSurroundings(a: string, block: string, rest: string)
    requires Delimited(a + block + rest, a, block)
    ensures var w := a + block + rest;
            && 0 <= Find(w, MARKER_START) <= Find(w, MARKER_END) && Surroundings(w) == (a, rest)
            && w[Find(w, MARKER_START)..Find(w, MARKER_END) + |MARKER_END|] == block
  {
    hide Find;
    var w := a + block + rest;
    assert w[..|a|] == a && w[|a| + |block|..] == rest && w[|a|..|a| + |block|] == block;
  }

  /** When the markers already exist, all text outside them is kept as it was read, apart from a
      final newline; reading itself changes the file exactly if it holds a carriage return. */
  lemma RewriteKeepsSurroundings(stored: string, generated: string)
    requires GeneratedBlock(generated)
    requires 0 <= Find(ReadBack(stored), MARKER_START) <= Find(ReadBack(stored), MARKER_END)
    ensures Write(stored, generated).Some?
    ensures var current, next := ReadBack(stored), Write(stored, generated).value;
            && 0 <= Find(next, MARKER_START) <= Find(next, MARKER_END)
            && Surroundings(next).0 == Surroundings(current).0
            && (Surroundings(next).1 == Surroundings(current).1 || Surroundings(next).1 == Surroundings(current).1 + "\n")
            && next[Find(next, MARKER_START)..Find(next, MARKER_END) + |MARKER_END|] == Rstrip(generated)
    ensures ReadBack(stored) == stored <==> '\r' !in stored
  {
    hide IsSpace, Find, Rstrip, CleanBefore, OccursAt, Delimited, ReadBack, GeneratedBlock, NextContent;
    ReadBackFixed(stored);
    var current := ReadBack(stored);
    MarkersAreEnough(current, generated);
    var a, rest := WrittenForm(current, generated);
    BlockDelimited(a, generated, rest);
    DelimitedSurroundings(a, Rstrip(generated), rest);
  }

  lemma MarkersAreEnough(current: string, generated: string)
    requires 0 <= Find(current, MARKER_START) <= Find(current, MARKER_END)
    ensures NextContent(current, generated).Some?
  {
    hide Find, Rstrip;
    FoundInRange(current, MARKER_END);
  }

  // ---- First insertion and malformed files ---------------------------------------------------

  /** A file without the markers keeps its text up to trailing space, and from the Keet section on
      exactly; the block stands between. */
  lemma FirstInsertion(current: string, generated: string)
    requires Find(current, MARKER_START) == -1 && Find(current, MARKER_END) == -1
    ensures ReplaceSection(current, generated).Some?
    ensures var next, k := ReplaceSection(current, generated).value, Find(current, KEET_MARKER);
            var text, kept := (if k == -1 then current else current[..k]), (if k == -1 then "" else current[k..]);
            && Rstrip(text) + "\n\n" + generated <= next
            && |kept| <= |next| && next[|next| - |kept|..] == kept
            && |next| == |Rstrip(text)| + 2 + |generated| + |kept| + if k == -1 then 0 else 1
  {
    hide Rstrip, IsSpace, Find;
    FoundInRange(current, KEET_MARKER);
  }

  /** The rewrite refuses exactly a file with one marker alone, or whose first end marker comes first. */
  lemma MalformedExactly(current: string, generated: string)
    ensures ReplaceSection(current, generated).None? <==>
            || ((exists k :: OccursAt(current, MARKER_START, k)) != (exists k :: OccursAt(current, MARKER_END, k)))
            || (exists e :: OccursAt(current, MARKER_END, e) && forall s :: OccursAt(current, MARKER_START, s) ==> e < s)
  {
    FindDecides(current, MARKER_START);
    FindDecides(current, MARKER_END);
    var start, end := Find(current, MARKER_START), Find(current, MARKER_END);
    MarkersDiffer(current, start);
    hide OccursAt, Find, Rstrip, IsSpace;
    if start != -1 && end != -1 && end < start {
      assert OccursAt(current, MARKER_END, end);
    }
    if start == -1 && end == -1 {
      assert ReplaceSection(current, generated).Some?;
    }
  }

  lemma FindDecides(s: string, pattern: string)
    ensures Find(s, pattern) != -1 <==> exists k :: OccursAt(s, pattern, k)
    ensures forall k :: OccursAt(s, pattern, k) ==> 0 <= Find(s, pattern) <= k
    ensures Find(s, pattern) != -1 ==> OccursAt(s, pattern, Find(s, pattern))
  {
    forall k | OccursAt(s, pattern, k) ensures 0 <= Find(s, pattern) <= k {
      FoundAt(s, pattern, k);
    }
    hide OccursAt;
  }

  lemma MarkersDiffer(s: string, k: int)
    ensures !(OccursAt(s, MARKER_START, k) && OccursAt(s, MARKER_END, k))
  {
    assert MARKER_START[5] == 'B' && MARKER_END[5] == 'E';
    if OccursAt(s, MARKER_START, k) {
      assert s[k..k + |MARKER_START|][5] == s[k + 5];
    }
    if OccursAt(s, MARKER_END, k) {
      assert s[k..k + |MARKER_END|][5] == s[k + 5];
    }
  }

  /** What reading makes of the two foreign line ends. */
  lemma ReadBackLineEnds(clean: string, rest: string)
    requires '\r' !in clean
    ensures ReadBack(clean + ("\r\n" + rest)) == clean + ("\n" + ReadBack(rest))
    ensures rest == "" || rest[0] != '\n' ==> ReadBack(clean + ("\r" + rest)) == clean + ("\n" + ReadBack(rest))
  {
    ReadBackPrefix(clean, "\r\n" + rest);
    ReadBackPrefix(clean, "\r" + rest);
    assert ("\r\n" + rest)[2..] == rest && ("\r" + rest)[1..] == rest;
  }

  /** The three markers. */
  lemma MarkersSpelled()
    ensures MARKER_START == "<!-- BEGIN GENERATED: " + "RUST DISTRIBUTION LICENSES -->"
    ensures MARKER_END == "<!-- END GENERATED: " + "RUST DISTRIBUTION LICENSES -->"
    ensures KEET_MARKER == "<!-- BEGIN GENERATED: KEET DESKTOP RUNTIME LICENSES -->"
  {
  }
}
