/** Which files the two parsers of the merge tool accept. */
module PoAccepts {
  import opened Bytes
  import opened PoFile
  import opened PoMerge

  predicate Indented(line: string) {
    line != "" && IsWhite(line[0])
  }

  predicate IsMsgid(line: string) {
    MSGID <= Trim(line) && |Trim(line)| >= 8
  }

  predicate IsMsgstr(line: string) {
    MSGSTR <= Trim(line)
  }

  /**
   * Some line is indented where UpdateTranslation does not trim: a quoted line that continues a
   * msgid, or the line that ends an entry. `last` is the nearest line before that is not quoted.
   */
  predicate BadIndent(last: string, lines: seq<string>)
    decreases |lines|
  {
    lines != []
    && var quoted := StartsQuoted(lines[0]);
       || (Indented(lines[0]) && if quoted then IsMsgid(last) else IsMsgstr(last))
       || BadIndent(if quoted then last else lines[0], lines[1..])
  }

  // One line at a time.

  lemma QuotedIsStrict(line: string)
    requires Continues(line, false)
    ensures StartsQuoted(line) && (Continues(line, true) <==> !Indented(line))
  {
    assert !IsWhite('\"');
    hide Trim, IsWhite;
    if !Indented(line) {
      TrimFirst(line);
    }
  }

  lemma UnquotedStops(line: string)
    requires !Continues(line, false)
    ensures !StartsQuoted(line) && !Continues(line, true)
  {
    hide Trim, IsWhite;
    if Continues(line, true) {
      StrictContinues(line);
    }
    if line == "" {
      TrimEmpty();
    }
  }

  lemma EndIsStrict(line: string)
    requires Ends(line, false)
    ensures Ends(line, true) <==> !Indented(line)
    ensures !StartsQuoted(line) && !Continues(line, false) && !IsMsgid(line) && !IsMsgstr(line)
  {
    assert MSGID[0] == 'm' && MSGSTR[0] == 'm';
    hide Trim, IsWhite;
    if line == "" {
      TrimEmpty();
    } else if !IsWhite(line[0]) {
      TrimFirst(line);
    }
  }

  lemma SkippedIsNoKeyword(line: string)
    requires Skipped(Trim(line))
    ensures !IsMsgid(line) && !IsMsgstr(line)
  {
    hide Trim;
    assert MSGID[0] == 'm' && MSGSTR[0] == 'm';
  }

  lemma MsgidLine(line: string)
    requires Quotes(MSGID, Trim(line)) && !Skipped(Trim(line))
    ensures IsMsgid(line) && !IsMsgstr(line) && !StartsQuoted(line)
  {
    hide Trim;
    assert MSGID[0] == 'm' && MSGID[3] == 'i' && MSGSTR[3] == 's';
  }

  lemma MsgstrLine(line: string)
    requires Quotes(MSGSTR, Trim(line))
    ensures IsMsgstr(line) && !IsMsgid(line) && !StartsQuoted(line)
  {
    hide Trim;
    assert MSGSTR[0] == 'm' && MSGID[3] == 'i' && MSGSTR[3] == 's';
  }

  // The continuation lines of an entry.

  /** Behind a msgid, either no line of the run is indented and both read it alike, or UpdateTranslation stops inside. */
  lemma {:induction false} MsgidRun(last: string, lines: seq<string>, text: string)
    requires IsMsgid(last) && Gather(lines, false, "", text).Success?
    ensures var rest := Gather(lines, false, "", text).value.rest;
            var strict := Gather(lines, true, "", text);
            if strict == Gather(lines, false, "", text) then BadIndent(last, lines) == BadIndent(last, rest)
            else BadIndent(last, lines) && strict.Success? && strict.value.rest != [] && StartsQuoted(strict.value.rest[0])
    decreases |lines|
  {
    hide Trim, IsMsgid, IsMsgstr, Indented, StartsQuoted;
    if lines != [] {
      if Continues(lines[0], false) {
        QuotedIsStrict(lines[0]);
        GatherStep(lines, false, "", text);
        hide Continues;
        if !Indented(lines[0]) {
          assert Gather(lines, true, "", text) == Gather(lines[1..], true, "", text + "" + Part(lines[0]));
          MsgidRun(last, lines[1..], text + "" + Part(lines[0]));
        }
      } else {
        UnquotedStops(lines[0]);
      }
    }
  }

  /** Behind a msgstr, indentation does no harm. */
  lemma {:induction false} MsgstrRun(last: string, lines: seq<string>, glue: string, text: string)
    requires IsMsgstr(last) && !IsMsgid(last) && Gather(lines, false, glue, text).Success?
    ensures var rest := Gather(lines, false, glue, text).value.rest;
            BadIndent(last, lines) == BadIndent(last, rest) && (rest != [] ==> !StartsQuoted(rest[0]))
    decreases |lines|
  {
    hide Trim, IsMsgid, IsMsgstr, Indented, StartsQuoted;
    if lines != [] {
      if Continues(lines[0], false) {
        QuotedIsStrict(lines[0]);
        GatherStep(lines, false, glue, text);
        MsgstrRun(last, lines[1..], glue, text + glue + Part(lines[0]));
      } else {
        UnquotedStops(lines[0]);
      }
    }
  }

  // A whole entry, and a whole file.

  /** The pieces of an entry that ParseTranslation accepts. */
  lemma EntryRuns(lines: seq<string>) returns (id: Gathered, msg: Gathered)
    requires lines != [] && EntryAt(lines, false).Success?
    ensures Quotes(MSGID, Trim(lines[0])) && Gather(lines[1..], false, "", Inner(MSGID, Trim(lines[0]))) == Success(id)
    ensures id.rest != [] && Quotes(MSGSTR, Trim(id.rest[0]))
    ensures Gather(id.rest[1..], false, Glue(id.text), Inner(MSGSTR, Trim(id.rest[0]))) == Success(msg)
    ensures EntryAt(lines, false).value.rest == msg.rest
  {
    hide Gather, Trim, Inner, Quotes;
    id := Gather(lines[1..], false, "", Inner(MSGID, Trim(lines[0]))).value;
    msg := Gather(id.rest[1..], false, Glue(id.text), Inner(MSGSTR, Trim(id.rest[0]))).value;
  }

  lemma EntryByGather(lines: seq<string>)
    requires lines != [] && EntryAt(lines, false).Success?
    ensures var strict := Gather(lines[1..], true, "", Inner(MSGID, Trim(lines[0])));
            && (strict == Gather(lines[1..], false, "", Inner(MSGID, Trim(lines[0])))
                ==> EntryAt(lines, true) == EntryAt(lines, false))
            && (strict.Success? && strict.value.rest != [] && !Quotes(MSGSTR, Trim(strict.value.rest[0]))
                ==> EntryAt(lines, true).Failure?)
  {
    hide Gather, Trim, Inner, Quotes;
  }

  lemma QuotedIsNoMsgstr(line: string)
    requires StartsQuoted(line)
    ensures !Quotes(MSGSTR, Trim(line))
  {
    hide Trim;
    assert MSGSTR[0] == 'm';
  }

  lemma EntryIndent(last: string, lines: seq<string>)
    requires lines != [] && !Skipped(Trim(lines[0])) && EntryAt(lines, false).Success?
    requires !IsMsgid(last) && !IsMsgstr(last)
    ensures var rest := EntryAt(lines, false).value.rest;
            if EntryAt(lines, true).Success? then
              EntryAt(lines, true) == EntryAt(lines, false)
              && (rest != [] ==> !StartsQuoted(rest[0]))
              && (BadIndent(last, lines) <==> rest != [] && (Indented(rest[0]) || BadIndent(rest[0], rest[1..])))
            else BadIndent(last, lines)
  {
    var id, msg := EntryRuns(lines);
    var text := Inner(MSGID, Trim(lines[0]));
    EntryByGather(lines);
    MsgidLine(lines[0]);
    MsgstrLine(id.rest[0]);
    MsgidRun(lines[0], lines[1..], text);
    MsgstrRun(id.rest[0], id.rest[1..], Glue(id.text), Inner(MSGSTR, Trim(id.rest[0])));
    var strict := Gather(lines[1..], true, "", text);
    hide Gather, EntryAt, Trim, Inner, Quotes, StartsQuoted, IsMsgid, IsMsgstr, Indented, Skipped;
    if strict.Success? && strict.value.rest != [] && StartsQuoted(strict.value.rest[0]) {
      QuotedIsNoMsgstr(strict.value.rest[0]);
    }
  }

  lemma {:induction false} AcceptedIff(last: string, lines: seq<string>, update: map<string, string>, beforeFirst: bool,
                                       msg: map<string, string>)
    requires !IsMsgid(last) && !IsMsgstr(last) && Parse(lines, msg).Success?
    ensures Merge(lines, update, beforeFirst).Success? <==> !BadIndent(last, lines)
    decreases |lines|
  {
    hide EntryAt, Trim, Copied, SplitLines, MergeEntry, IsMsgid, IsMsgstr, StartsQuoted, Indented, Ends, Skipped;
    if lines == [] {
    } else if Skipped(Trim(lines[0])) {
      SkippedIsNoKeyword(lines[0]);
      AcceptedIff(if StartsQuoted(lines[0]) then last else lines[0], lines[1..], update, beforeFirst, msg);
    } else {
      EntryIndent(last, lines);
      if EntryAt(lines, true).Success? {
        var e := EntryAt(lines, true).value;
        if e.rest != [] {
          EndIsStrict(e.rest[0]);
          AcceptedIff(e.rest[0], e.rest[1..], update, beforeFirst && e.msgid == "", msg[e.msgid := e.msgstr]);
        }
      }
    }
  }

  /** UpdateTranslation accepts exactly the files that ParseTranslation accepts and that have no bad indentation. */
  lemma SameFilesAccepted(lines: seq<string>, update: map<string, string>, beforeFirst: bool,
                                             msg: map<string, string>)
    ensures Merge(lines, update, beforeFirst).Success? <==> Parse(lines, msg).Success? && !BadIndent("", lines)
  {
    assert !IsMsgid("") && !IsMsgstr("") by {
      TrimEmpty();
    }
    hide *;
    if Parse(lines, msg).Success? {
      AcceptedIff("", lines, update, beforeFirst, msg);
    } else if Merge(lines, update, beforeFirst).Success? {
      MergeAcceptsLess(lines, update, beforeFirst, msg);
    }
  }

  // Files that only one of them accepts.

  lemma TrimAfterSpace(t: string)
    requires t != "" && !IsWhite(t[0])
    ensures Trim(" " + t) == Trim(t)
  {
    assert (" " + t)[1..] == t;
    assert TrimStart(" " + t) == TrimStart(t);
  }

  lemma TrimIndented(s: string)
    ensures var line := " " + (QUOTE + s + QUOTE);
            Continues(line, false) && !Continues(line, true) && |Trim(line)| >= 2 && Part(line) == s
            && !Quotes(MSGSTR, Trim(line))
  {
    var t := QUOTE + s + QUOTE;
    QuoteIsVisible();
    hide Trim, IsWhite;
    TrimQuoted(QUOTE, s);
    TrimAfterSpace(t);
    assert t[0] == '\"' && t[1..|t| - 1] == s && MSGSTR[0] == 'm';
  }

  lemma EntryGivenMsgid(lines: seq<string>, strict: bool, id: Gathered)
    requires lines != [] && Quotes(MSGID, Trim(lines[0])) && id.rest != []
    requires Gather(lines[1..], strict, "", Inner(MSGID, Trim(lines[0]))) == Success(id)
    ensures !Quotes(MSGSTR, Trim(id.rest[0])) ==> EntryAt(lines, strict) == Failure(AfterMsgid)
    ensures Quotes(MSGSTR, Trim(id.rest[0])) ==>
              var msg := Gather(id.rest[1..], false, Glue(id.text), Inner(MSGSTR, Trim(id.rest[0])));
              msg.Success? ==> EntryAt(lines, strict) == Success(Entry(id.text, msg.value.text, msg.value.rest))
  {
    hide Gather, Quotes, Inner, Trim;
  }

  lemma DifferOn(l0: string, l1: string, l2: string, a: string, b: string, c: string)
    requires Quotes(MSGID, Trim(l0)) && Inner(MSGID, Trim(l0)) == a && !Skipped(Trim(l0))
    requires Continues(l1, false) && !Continues(l1, true) && |Trim(l1)| >= 2 && Part(l1) == b
    requires !Quotes(MSGSTR, Trim(l1))
    requires Quotes(MSGSTR, Trim(l2)) && Inner(MSGSTR, Trim(l2)) == c && !Continues(l2, false)
    ensures Parse([l0, l1, l2], map[]) == Success(map[a + b := c])
    ensures Merge([l0, l1, l2], map[], true) == Failure(AfterMsgid)
  {
    var file := [l0, l1, l2];
    assert Gather([], false, Glue(a + b), c) == Success(Gathered(c, []));
    hide Trim, Quotes, Inner, Continues, Skipped, Part, Gather, EntryAt;
    assert file[1..] == [l1] + [l2] && [l1] + [l2] == [l1, l2] && [l2] + [] == [l2] && [l2][1..] == [];
    assert a + "" + b == a + b;
    GatherStops(l1, [l2], true, "", a);
    GatherNext(l1, [l2], false, "", a);
    GatherStops(l2, [], false, "", a + b);
    EntryGivenMsgid(file, true, Gathered(a, [l1, l2]));
    EntryGivenMsgid(file, false, Gathered(a + b, [l2]));
  }

  /** An indented continuation of a msgid: ParseTranslation takes it, UpdateTranslation does not. */
  lemma IndentedMsgidDiffers(a: string, b: string, c: string)
    ensures var file := [MSGID + a + QUOTE, " " + (QUOTE + b + QUOTE), MSGSTR + c + QUOTE];
            Parse(file, map[]) == Success(map[a + b := c]) && Merge(file, map[], true) == Failure(AfterMsgid)
  {
    hide *;
    KeywordLine(a, false);
    KeywordLine(c, false);
    TrimIndented(b);
    DifferOn(MSGID + a + QUOTE, " " + (QUOTE + b + QUOTE), MSGSTR + c + QUOTE, a, b, c);
  }

  lemma EntryThenEnd(l0: string, l1: string, end: string, a: string, c: string)
    requires Quotes(MSGID, Trim(l0)) && Inner(MSGID, Trim(l0)) == a && !Skipped(Trim(l0))
    requires Quotes(MSGSTR, Trim(l1)) && Inner(MSGSTR, Trim(l1)) == c && !Continues(l1, true) && !Continues(l1, false)
    requires !Continues(end, false)
    ensures EntryAt([l0, l1, end], false) == EntryAt([l0, l1, end], true) == Success(Entry(a, c, [end]))
  {
    var file := [l0, l1, end];
    hide Trim, Quotes, Inner, Continues, Skipped, Gather, EntryAt;
    assert file[1..] == [l1] + [end] && [l1] + [end] == [l1, end] && [end] + [] == [end] && [l1, end][1..] == [end];
    GatherStops(l1, [end], true, "", a);
    GatherStops(l1, [end], false, "", a);
    GatherStops(end, [], false, Glue(a), c);
    EntryGivenMsgid(file, true, Gathered(a, [l1, end]));
    EntryGivenMsgid(file, false, Gathered(a, [l1, end]));
  }

  lemma EndsApart(lines: seq<string>, e: Entry, end: string)
    requires lines != [] && !Skipped(Trim(lines[0])) && EntryAt(lines, false) == EntryAt(lines, true) == Success(e)
    requires e.rest == [end] && Ends(end, false) && !Ends(end, true)
    ensures Parse(lines, map[]) == Success(map[e.msgid := e.msgstr])
    ensures Merge(lines, map[], true) == Failure(AfterMsgstr)
  {
    hide EntryAt, Trim, Skipped, Ends;
    assert [end][1..] == [];
    assert Parse([], map[e.msgid := e.msgstr]) == Success(map[e.msgid := e.msgstr]);
  }

  /** An indented comment or a line of spaces right behind an entry: ParseTranslation takes it, UpdateTranslation does not. */
  lemma IndentedEndDiffers(a: string, c: string, end: string)
    requires Ends(end, false) && Indented(end)
    ensures var file := [MSGID + a + QUOTE, MSGSTR + c + QUOTE, end];
            Parse(file, map[]) == Success(map[a := c]) && Merge(file, map[], true) == Failure(AfterMsgstr)
  {
    hide *;
    EndIsStrict(end);
    KeywordLine(a, false);
    KeywordLine(c, false);
    KeywordLine(c, true);
    EntryThenEnd(MSGID + a + QUOTE, MSGSTR + c + QUOTE, end, a, c);
    EndsApart([MSGID + a + QUOTE, MSGSTR + c + QUOTE, end], Entry(a, c, [end]), end);
  }

  /** A line of one space is such a line. */
  lemma SpaceIsAnIndentedEnd(line: string)
    requires |line| == 1 && line[0] == ' '
    ensures Ends(line, false) && Indented(line)
  {
    assert line[1..] == "";
    assert TrimStart(line) == "";
  }
}
