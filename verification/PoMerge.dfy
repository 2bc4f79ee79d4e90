/** Merging .po files: the two parsers and the printer agree. */
module PoMerge {
  import opened Bytes
  import opened PoFile

  // What the stricter parser accepts, the other reads in the same way.

  predicate StartsQuoted(line: string) {
    Trim(line) != "" && Trim(line)[0] == '\"'
  }

  lemma {:induction false} GatherAgrees(lines: seq<string>, glue: string, text: string)
    requires Gather(lines, true, glue, text).Success?
    requires var rest := Gather(lines, true, glue, text).value.rest;
             rest != [] ==> !StartsQuoted(rest[0])
    ensures Gather(lines, false, glue, text) == Gather(lines, true, glue, text)
    decreases |lines|
  {
    hide Trim, IsWhite;
    if lines != [] && Continues(lines[0], true) {
      StrictContinues(lines[0]);
      var t := Trim(lines[0]);
      GatherAgrees(lines[1..], glue, text + glue + t[1..|t| - 1]);
    }
  }

  lemma StrictContinues(line: string)
    requires Continues(line, true)
    ensures Continues(line, false)
  {
    TrimFirst(line);
  }

  lemma EntryAgrees(lines: seq<string>)
    requires lines != [] && EntryAt(lines, true).Success?
    ensures EntryAt(lines, false) == EntryAt(lines, true)
  {
    var text := Inner(MSGID, Trim(lines[0]));
    var rest := Gather(lines[1..], true, "", text).value.rest;
    assert Quotes(MSGSTR, Trim(rest[0])) && Trim(rest[0])[0] == MSGSTR[0];
    GatherAgrees(lines[1..], "", text);
  }

  lemma EndAgrees(line: string)
    requires Ends(line, true)
    ensures Ends(line, false)
  {
    if line != "" {
      TrimFirst(line);
    }
  }

  /** A file that UpdateTranslation accepts, ParseTranslation accepts too. */
  lemma {:induction false} MergeAcceptsLess(lines: seq<string>, update: map<string, string>, beforeFirst: bool,
                                            msg: map<string, string>)
    requires Merge(lines, update, beforeFirst).Success?
    ensures Parse(lines, msg).Success?
    decreases |lines|
  {
    hide Trim;
    if lines == [] {
    } else if Skipped(Trim(lines[0])) {
      MergeAcceptsLess(lines[1..], update, beforeFirst, msg);
    } else {
      EntryAgrees(lines);
      var e := EntryAt(lines, true).value;
      if e.rest != [] {
        EndAgrees(e.rest[0]);
        MergeAcceptsLess(e.rest[1..], update, beforeFirst && e.msgid == "", msg[e.msgid := e.msgstr]);
      }
    }
  }

  lemma EntryRest(lines: seq<string>, strict: bool)
    requires lines != [] && EntryAt(lines, strict).Success?
    ensures var rest := EntryAt(lines, strict).value.rest;
            |rest| < |lines| && rest == lines[|lines| - |rest|..]
  {
    var t := Trim(lines[0]);
    hide Trim, Quotes, Inner, Gather, IsSuffix;
    var id := Gather(lines[1..], strict, "", Inner(MSGID, t)).value;
    var rest := EntryAt(lines, strict).value.rest;
    GatherLeaves(lines[1..], strict, "", Inner(MSGID, t));
    GatherLeaves(id.rest[1..], false, Glue(id.text), Inner(MSGSTR, Trim(id.rest[0])));
    hide *;
    SuffixOfTail(lines, id.rest);
    SuffixOfTail(id.rest, rest);
    SuffixTrans(lines, id.rest, rest);
  }

  predicate IsSuffix(s: seq<string>, rest: seq<string>) {
    |rest| <= |s| && rest == s[|s| - |rest|..]
  }

  lemma GatherLeaves(lines: seq<string>, strict: bool, glue: string, text: string)
    ensures var g := Gather(lines, strict, glue, text); g.Success? ==> IsSuffix(lines, g.value.rest)
  {
    GatherShrinks(lines, strict, glue, text);
    hide Gather;
  }

  lemma SuffixOfTail(s: seq<string>, rest: seq<string>)
    requires s != [] && IsSuffix(s[1..], rest)
    ensures IsSuffix(s, rest) && |rest| < |s|
  {
  }

  lemma SuffixTrans(s: seq<string>, mid: seq<string>, rest: seq<string>)
    requires IsSuffix(s, mid) && IsSuffix(mid, rest)
    ensures IsSuffix(s, rest) && rest == s[|s| - |rest|..]
  {
    assert s[|s| - |mid|..][|mid| - |rest|..] == s[|s| - |rest|..];
  }

  // What an entry holds.

  /** The text of a msgstr from its first line and its continuation lines, kept apart. */
  function Join(first: string, parts: seq<string>): string
    decreases |parts|
  {
    if parts == [] then first else Join(first + NEXT_LINE + parts[0], parts[1..])
  }

  /** A header's text may span lines; any other text is one line. */
  ghost predicate Printable(msgid: string, first: string, parts: seq<string>) {
    IsLine(msgid) && IsLine(first) && AreLines(parts) && (parts != [] ==> msgid == "")
  }

  lemma JoinedLine(a: string, b: string)
    requires IsLine(a) && IsLine(b)
    ensures IsLine(a + "" + b)
  {
  }

  /** The line inside a trimmed continuation line. */
  function Part(line: string): string
    requires |Trim(line)| >= 2
  {
    Trim(line)[1..|Trim(line)| - 1]
  }

  lemma PartIsLine(line: string)
    requires IsLine(line) && |Trim(line)| >= 2
    ensures IsLine(Part(line))
  {
    TrimKeepsLine(line);
  }

  lemma GatherStep(lines: seq<string>, strict: bool, glue: string, text: string)
    requires lines != [] && Continues(lines[0], strict) && Gather(lines, strict, glue, text).Success?
    ensures |Trim(lines[0])| >= 2
    ensures Gather(lines, strict, glue, text) == Gather(lines[1..], strict, glue, text + glue + Part(lines[0]))
  {
  }

  lemma {:induction false} GatherOneLine(lines: seq<string>, strict: bool, text: string)
    requires AreLines(lines) && IsLine(text) && Gather(lines, strict, "", text).Success?
    ensures IsLine(Gather(lines, strict, "", text).value.text)
    decreases |lines|
  {
    if lines != [] && Continues(lines[0], strict) {
      GatherStep(lines, strict, "", text);
      PartIsLine(lines[0]);
      hide *;
      JoinedLine(text, Part(lines[0]));
      LinesOfRest(lines);
      GatherOneLine(lines[1..], strict, text + "" + Part(lines[0]));
    }
  }

  lemma LinesOfRest(lines: seq<string>)
    requires lines != [] && AreLines(lines)
    ensures IsLine(lines[0]) && AreLines(lines[1..])
  {
  }

  lemma {:induction false} GatherParts(lines: seq<string>, strict: bool, text: string) returns (parts: seq<string>)
    requires AreLines(lines) && Gather(lines, strict, NEXT_LINE, text).Success?
    ensures AreLines(parts) && Gather(lines, strict, NEXT_LINE, text).value.text == Join(text, parts)
    decreases |lines|
  {
    if lines == [] || !Continues(lines[0], strict) {
      return [];
    }
    GatherStep(lines, strict, NEXT_LINE, text);
    LinesOfRest(lines);
    PartIsLine(lines[0]);
    var more := GatherParts(lines[1..], strict, text + NEXT_LINE + Part(lines[0]));
    parts := [Part(lines[0])] + more;
    assert parts[1..] == more;
  }

  lemma InnerIsLine(keyword: string, line: string)
    requires IsLine(line)
    ensures IsLine(Inner(keyword, Trim(line)))
  {
    TrimKeepsLine(line);
  }

  lemma LinesOfSuffix(lines: seq<string>, rest: seq<string>)
    requires AreLines(lines) && |rest| <= |lines| && rest == lines[|lines| - |rest|..]
    ensures AreLines(rest)
  {
  }

  /** The first line and the continuation lines of a msgstr. */
  lemma MsgstrParts(lines: seq<string>, start: string, msgid: string) returns (first: string, parts: seq<string>)
    requires AreLines(lines) && IsLine(start) && Gather(lines, false, Glue(msgid), start).Success?
    ensures IsLine(first) && AreLines(parts) && (parts != [] ==> msgid == "")
    ensures Gather(lines, false, Glue(msgid), start).value.text == Join(first, parts)
  {
    hide Gather, IsLine, AreLines;
    first := start;
    if msgid == "" {
      parts := GatherParts(lines, false, start);
    } else {
      GatherOneLine(lines, false, start);
      first := Gather(lines, false, "", start).value.text;
      parts := [];
      LinesOfSuffix(lines, []);
    }
  }

  /** The lines of the msgid, and those of the msgstr that follow it. */
  lemma EntryPieces(lines: seq<string>, strict: bool) returns (id: Gathered)
    requires lines != [] && AreLines(lines) && EntryAt(lines, strict).Success?
    ensures IsLine(id.text) && id.rest != [] && IsLine(id.rest[0]) && AreLines(id.rest[1..])
    ensures var msg := Gather(id.rest[1..], false, Glue(id.text), Inner(MSGSTR, Trim(id.rest[0])));
            && msg.Success?
            && EntryAt(lines, strict).value == Entry(id.text, msg.value.text, msg.value.rest)
  {
    var text := Inner(MSGID, Trim(lines[0]));
    id := Gather(lines[1..], strict, "", text).value;
    hide Quotes, Gather, Trim, Inner, IsLine, AreLines;
    LinesOfRest(lines);
    InnerIsLine(MSGID, lines[0]);
    GatherOneLine(lines[1..], strict, text);
    GatherShrinks(lines[1..], strict, "", text);
    LinesOfSuffix(lines[1..], id.rest);
    LinesOfRest(id.rest);
  }

  lemma EntryParts(lines: seq<string>, strict: bool) returns (first: string, parts: seq<string>)
    requires lines != [] && AreLines(lines) && EntryAt(lines, strict).Success?
    ensures var e := EntryAt(lines, strict).value;
            Printable(e.msgid, first, parts) && e.msgstr == Join(first, parts)
  {
    hide EntryAt, Gather, Trim, Inner, IsLine, AreLines, Join;
    var id := EntryPieces(lines, strict);
    InnerIsLine(MSGSTR, id.rest[0]);
    first, parts := MsgstrParts(id.rest[1..], Inner(MSGSTR, Trim(id.rest[0])), id.text);
  }

  // What is written for an entry, and how it is read.

  function Quoted(parts: seq<string>): seq<string> {
    seq(|parts|, i requires 0 <= i < |parts| => QUOTE + parts[i] + QUOTE)
  }

  lemma {:induction false} JoinFirst(first: string, parts: seq<string>)
    ensures Join(first, parts) == first + Join("", parts)
    decreases |parts|
  {
    if parts != [] {
      JoinFirst(first + NEXT_LINE + parts[0], parts[1..]);
      JoinFirst("" + NEXT_LINE + parts[0], parts[1..]);
      assert first + NEXT_LINE + parts[0] + Join("", parts[1..])
          == first + ("" + NEXT_LINE + parts[0] + Join("", parts[1..]));
    } else {
      assert first + "" == first;
    }
  }

  lemma {:induction false} SplitJoined(before: string, parts: seq<string>)
    requires IsLine(before) && AreLines(parts)
    ensures SplitLines(Join(before, parts) + QUOTE + "\n") == [before + QUOTE] + Quoted(parts) + [""]
    decreases |parts|
  {
    if parts == [] {
      SplitAtNewline(before + QUOTE, "");
      assert before + QUOTE + "\n" + "" == before + QUOTE + "\n";
    } else {
      var next := QUOTE + parts[0];
      JoinFirst(before + NEXT_LINE + parts[0], parts[1..]);
      JoinFirst(next, parts[1..]);
      var tail := Join("", parts[1..]) + QUOTE + "\n";
      assert Join(before, parts) + QUOTE + "\n" == (before + QUOTE) + "\n" + (next + tail);
      assert next + tail == Join(next, parts[1..]) + QUOTE + "\n";
      SplitAtNewline(before + QUOTE, next + tail);
      SplitJoined(next, parts[1..]);
      assert Quoted(parts) == [next + QUOTE] + Quoted(parts[1..]);
    }
  }

  lemma WrittenLines(msgid: string, first: string, parts: seq<string>)
    requires Printable(msgid, first, parts)
    ensures Written(msgid, Join(first, parts))
         == [MSGID + msgid + QUOTE] + ([MSGSTR + first + QUOTE] + (Quoted(parts) + [""]))
  {
    var msgidLine, msgstrLine := MSGID + msgid + QUOTE, MSGSTR + first + QUOTE;
    SplitOneLine(msgidLine);
    JoinAfter(MSGSTR, first, parts);
    SplitJoined(MSGSTR + first, parts);
    hide SplitLines, Join, Quoted;
    Assoc([msgstrLine], Quoted(parts), [""]);
  }

  lemma JoinAfter(before: string, first: string, parts: seq<string>)
    ensures before + Join(first, parts) == Join(before + first, parts)
  {
    JoinFirst(first, parts);
    JoinFirst(before + first, parts);
    Assoc(before, first, Join("", parts));
  }

  lemma TrimQuoted(keyword: string, s: string)
    requires keyword != "" && !IsWhite(keyword[0])
    ensures Trim(keyword + s + QUOTE) == keyword + s + QUOTE
  {
  }

  lemma PartOfQuoted(s: string)
    ensures |Trim(QUOTE + s + QUOTE)| >= 2 && Part(QUOTE + s + QUOTE) == s
    ensures Continues(QUOTE + s + QUOTE, false)
  {
    hide Trim, IsWhite;
    var t := QUOTE + s + QUOTE;
    assert Trim(t) == t by {
      QuoteIsVisible();
      TrimQuoted(QUOTE, s);
    }
    assert t[0] == '\"' && t[1..|t| - 1] == s;
  }

  lemma QuoteIsVisible()
    ensures !IsWhite(QUOTE[0]) && !IsWhite(MSGID[0]) && !IsWhite(MSGSTR[0])
  {
  }

  lemma GatherNext(line: string, more: seq<string>, strict: bool, glue: string, text: string)
    requires Continues(line, strict) && |Trim(line)| >= 2
    ensures Gather([line] + more, strict, glue, text) == Gather(more, strict, glue, text + glue + Part(line))
  {
    hide Trim, Continues;
    assert ([line] + more)[1..] == more;
  }

  lemma {:induction false} GatherQuoted(parts: seq<string>, tail: seq<string>, glue: string, text: string)
    requires glue == NEXT_LINE || parts == []
    ensures Gather(Quoted(parts) + ([""] + tail), false, glue, text) == Success(Gathered(Join(text, parts), [""] + tail))
    decreases |parts|
  {
    if parts == [] {
      assert Quoted(parts) + ([""] + tail) == [""] + tail;
    } else {
      var line := QUOTE + parts[0] + QUOTE;
      var more := Quoted(parts[1..]) + ([""] + tail);
      assert Quoted(parts) + ([""] + tail) == [line] + more;
      PartOfQuoted(parts[0]);
      hide Gather, Part, Continues, Trim, Quoted;
      GatherNext(line, more, false, glue, text);
      GatherQuoted(parts[1..], tail, glue, text + glue + parts[0]);
    }
  }

  lemma InnerQuoted(keyword: string, s: string)
    requires keyword != ""
    ensures Inner(keyword, keyword + s + QUOTE) == s
    ensures Quotes(keyword, keyword + s + QUOTE)
  {
  }

  lemma GatherStops(line: string, more: seq<string>, strict: bool, glue: string, text: string)
    requires !Continues(line, strict)
    ensures Gather([line] + more, strict, glue, text) == Success(Gathered(text, [line] + more))
  {
  }

  lemma EntryFrom(msgidLine: string, msgstrLine: string, rest: seq<string>, strict: bool, end: seq<string>,
                  msgid: string, msgstr: string)
    requires Quotes(MSGID, Trim(msgidLine)) && Inner(MSGID, Trim(msgidLine)) == msgid
    requires Quotes(MSGSTR, Trim(msgstrLine)) && !Continues(msgstrLine, strict)
    requires Gather(rest, false, Glue(msgid), Inner(MSGSTR, Trim(msgstrLine))) == Success(Gathered(msgstr, end))
    ensures EntryAt([msgidLine] + ([msgstrLine] + rest), strict) == Success(Entry(msgid, msgstr, end))
  {
    GatherStops(msgstrLine, rest, strict, "", msgid);
    var lines := [msgidLine] + ([msgstrLine] + rest);
    assert lines[1..] == [msgstrLine] + rest && lines[1..][1..] == rest;
    hide Gather, Quotes, Inner, Trim, Continues;
    assert lines[0] == msgidLine && lines[1..][0] == msgstrLine;
  }

  lemma KeywordLine(s: string, strict: bool)
    ensures var t := Trim(MSGID + s + QUOTE);
            t == MSGID + s + QUOTE && Quotes(MSGID, t) && Inner(MSGID, t) == s && !Skipped(t)
    ensures var t := Trim(MSGSTR + s + QUOTE);
            t == MSGSTR + s + QUOTE && Quotes(MSGSTR, t) && Inner(MSGSTR, t) == s
    ensures !Continues(MSGSTR + s + QUOTE, strict)
  {
    hide Trim, IsWhite, Quotes, Inner;
    QuoteIsVisible();
    TrimQuoted(MSGID, s);
    TrimQuoted(MSGSTR, s);
    InnerQuoted(MSGID, s);
    InnerQuoted(MSGSTR, s);
    assert (MSGID + s + QUOTE)[0] == 'm' && (MSGSTR + s + QUOTE)[0] == 'm';
  }

  /** What was written for an entry is read as that entry, by either parser. */
  lemma EntryOfWritten(msgid: string, first: string, parts: seq<string>, tail: seq<string>, strict: bool)
    requires Printable(msgid, first, parts)
    ensures var lines := Written(msgid, Join(first, parts)) + tail;
            && lines != [] && !Skipped(Trim(lines[0]))
            && EntryAt(lines, strict) == Success(Entry(msgid, Join(first, parts), [""] + tail))
  {
    var msgidLine, msgstrLine := MSGID + msgid + QUOTE, MSGSTR + first + QUOTE;
    var rest := Quoted(parts) + ([""] + tail);
    assert Glue(msgid) == NEXT_LINE || parts == [];
    hide *;
    WrittenLines(msgid, first, parts);
    assert Written(msgid, Join(first, parts)) + tail == [msgidLine] + ([msgstrLine] + rest);
    KeywordLine(msgid, strict);
    KeywordLine(first, strict);
    GatherQuoted(parts, tail, Glue(msgid), first);
    EntryFrom(msgidLine, msgstrLine, rest, strict, [""] + tail, msgid, Join(first, parts));
  }

  lemma ParseOfWritten(msgid: string, first: string, parts: seq<string>, tail: seq<string>, msg: map<string, string>)
    requires Printable(msgid, first, parts)
    ensures Parse(Written(msgid, Join(first, parts)) + tail, msg) == Parse(tail, msg[msgid := Join(first, parts)])
  {
    EntryOfWritten(msgid, first, parts, tail, false);
    TrimEmpty();
    hide EntryAt, Written, Join, Trim, Skipped;
    assert ([""] + tail)[1..] == tail;
  }

  lemma MergeOfWritten(msgid: string, first: string, parts: seq<string>, tail: seq<string>,
                       update: map<string, string>, beforeFirst: bool)
    requires Printable(msgid, first, parts)
    ensures Merge(Written(msgid, Join(first, parts)) + tail, update, beforeFirst)
         == MergeEntry(msgid, Join(first, parts), update).Then(Merge(tail, update, beforeFirst && msgid == ""))
  {
    EntryOfWritten(msgid, first, parts, tail, true);
    hide EntryAt, Written, Join, Trim, Skipped, MergeEntry, Run.Then;
    assert ([""] + tail)[1..] == tail;
  }

  /** Translations that can be written on one line, as ParseTranslation's are. */
  ghost predicate CleanUpdates(update: map<string, string>) {
    forall k :: k in update && k != "" ==> IsLine(update[k])
  }

  /** ParseTranslation produces such translations only. */
  lemma {:induction false} ParseGivesCleanUpdates(lines: seq<string>, msg: map<string, string>)
    requires AreLines(lines) && CleanUpdates(msg) && Parse(lines, msg).Success?
    ensures CleanUpdates(Parse(lines, msg).value)
    decreases |lines|
  {
    hide Trim;
    if lines == [] {
    } else if Skipped(Trim(lines[0])) {
      ParseGivesCleanUpdates(lines[1..], msg);
    } else {
      hide Gather, Quotes, Trim, EntryAt, IsLine;
      var e := EntryAt(lines, false).value;
      var first, parts := EntryParts(lines, false);
      EntryRest(lines, false);
      LinesOfSuffix(lines, e.rest);
      if e.rest != [] {
        LinesOfRest(e.rest);
        ParseGivesCleanUpdates(e.rest[1..], msg[e.msgid := e.msgstr]);
      }
    }
  }

  /** The updated map: the same msgids, each with its replacement. */
  function Replaced(msg: map<string, string>, update: map<string, string>): map<string, string> {
    map k | k in msg :: Replacement(k, msg[k], update)
  }

  lemma ReplacedAfter(msg: map<string, string>, update: map<string, string>, msgid: string, msgstr: string)
    ensures Replaced(msg[msgid := msgstr], update)
         == Replaced(msg, update)[msgid := Replacement(msgid, msgstr, update)]
  {
  }

  lemma ReplacementParts(lines: seq<string>, update: map<string, string>)
    returns (first: string, parts: seq<string>)
    requires lines != [] && AreLines(lines) && EntryAt(lines, true).Success? && CleanUpdates(update)
    ensures var e := EntryAt(lines, true).value;
            Printable(e.msgid, first, parts) && Replacement(e.msgid, e.msgstr, update) == Join(first, parts)
  {
    hide EntryAt, IsLine;
    var e := EntryAt(lines, true).value;
    first, parts := EntryParts(lines, true);
    if Replacement(e.msgid, e.msgstr, update) != e.msgstr {
      first, parts := update[e.msgid], [];
    }
  }

  /** A copied line is still one that both parsers skip. */
  lemma CopiedIsSkipped(line: string, beforeFirst: bool)
    requires IsLine(line) && Skipped(Trim(line))
    ensures var c := Copied(line, beforeFirst);
            Skipped(Trim(c)) && IsLine(c) && SplitLines(c) == [c] && Copied(c, beforeFirst) == c
  {
    hide Trim, SplitLines;
    TrimEmpty();
    SplitOneLine(Copied(line, beforeFirst));
    assert FUZZY != "";
  }

  lemma ParseSkips(line: string, tail: seq<string>, msg: map<string, string>)
    requires Skipped(Trim(line))
    ensures Parse([line] + tail, msg) == Parse(tail, msg)
  {
    assert ([line] + tail)[1..] == tail;
  }

  /** What UpdateTranslation does with a line between entries, and with the entry at the front. */
  lemma MergeSkips(line: string, tail: seq<string>, update: map<string, string>, beforeFirst: bool)
    requires Skipped(Trim(line)) && IsLine(line)
    ensures Merge([line] + tail, update, beforeFirst)
         == Run([Copied(line, beforeFirst)], 0, 0, 0, 0).Then(Merge(tail, update, beforeFirst))
  {
    CopiedIsSkipped(line, beforeFirst);
    hide Trim, SplitLines, Copied, IsLine, Skipped, Run.Then;
    assert ([line] + tail)[1..] == tail;
  }

  /** The lines after an entry and the line that ended it. */
  function Beyond(rest: seq<string>): seq<string> {
    if rest == [] then [] else rest[1..]
  }

  lemma MergeStep(lines: seq<string>, update: map<string, string>, beforeFirst: bool)
    requires lines != [] && !Skipped(Trim(lines[0])) && Merge(lines, update, beforeFirst).Success?
    ensures EntryAt(lines, true).Success?
    ensures var e := EntryAt(lines, true).value;
            && |e.rest| < |lines|
            && (e.rest != [] ==> Ends(e.rest[0], true))
            && Merge(Beyond(e.rest), update, beforeFirst && e.msgid == "").Success?
            && Merge(lines, update, beforeFirst).value
               == MergeEntry(e.msgid, e.msgstr, update).Plus(
                    Merge(Beyond(e.rest), update, beforeFirst && e.msgid == "").value)
  {
    hide EntryAt, Trim, Skipped, MergeEntry;
    var e := EntryAt(lines, true).value;
    var now := MergeEntry(e.msgid, e.msgstr, update);
    assert now.out + [] == now.out;
  }

  lemma ParseStep(lines: seq<string>, msg: map<string, string>)
    requires lines != [] && !Skipped(Trim(lines[0])) && EntryAt(lines, true).Success?
    requires var e := EntryAt(lines, true).value;
             e.rest != [] ==> Ends(e.rest[0], true)
    ensures var e := EntryAt(lines, true).value;
            Parse(lines, msg) == Parse(Beyond(e.rest), msg[e.msgid := e.msgstr])
  {
    EntryAgrees(lines);
    hide EntryAt, Trim, Skipped;
    var e := EntryAt(lines, true).value;
    if e.rest != [] {
      EndAgrees(e.rest[0]);
    }
  }

  /** The rest of the lines, after an entry and the line that ended it. */
  lemma RestAreLines(lines: seq<string>)
    requires lines != [] && AreLines(lines) && EntryAt(lines, true).Success?
    ensures var rest := EntryAt(lines, true).value.rest;
            |rest| < |lines| && AreLines(Beyond(rest))
  {
    EntryRest(lines, true);
    var rest := EntryAt(lines, true).value.rest;
    LinesOfSuffix(lines, rest);
    if rest != [] {
      LinesOfRest(rest);
    }
  }

  /**
   * The merge is correct: what it writes parses to the old map with exactly the non-empty msgids whose
   * update is not empty replaced, and the header as it was.
   */
  lemma {:induction false} MergeReplaces(lines: seq<string>, update: map<string, string>, beforeFirst: bool,
                                         msg: map<string, string>)
    requires AreLines(lines) && CleanUpdates(update) && Merge(lines, update, beforeFirst).Success?
    ensures Parse(lines, msg).Success?
    ensures Parse(Merge(lines, update, beforeFirst).value.out, Replaced(msg, update))
         == Success(Replaced(Parse(lines, msg).value, update))
    decreases |lines|, 1
  {
    hide Trim;
    if lines == [] {
      assert Merge(lines, update, beforeFirst).value.out == [];
    } else if Skipped(Trim(lines[0])) {
      MergeReplacesSkipped(lines, update, beforeFirst, msg);
    } else {
      hide *;
      MergeStep(lines, update, beforeFirst);
      ParseStep(lines, msg);
      RestAreLines(lines);
      var e := EntryAt(lines, true).value;
      var first, parts := ReplacementParts(lines, update);
      var bf := beforeFirst && e.msgid == "";
      var now := MergeEntry(e.msgid, e.msgstr, update);
      var more := Merge(Beyond(e.rest), update, bf).value;
      BeyondShrinks(e.rest);
      MergeReplaces(Beyond(e.rest), update, bf, msg[e.msgid := e.msgstr]);
      ReplacedAfter(msg, update, e.msgid, e.msgstr);
      MergeEntryIsWritten(e.msgid, e.msgstr, update, more);
      ParseOfWritten(e.msgid, first, parts, more.out, Replaced(msg, update));
    }
  }

  lemma MergeReplacesSkipped(lines: seq<string>, update: map<string, string>, beforeFirst: bool,
                             msg: map<string, string>)
    requires lines != [] && Skipped(Trim(lines[0]))
    requires AreLines(lines) && CleanUpdates(update) && Merge(lines, update, beforeFirst).Success?
    ensures Parse(lines, msg).Success?
    ensures Parse(Merge(lines, update, beforeFirst).value.out, Replaced(msg, update))
         == Success(Replaced(Parse(lines, msg).value, update))
    decreases |lines|, 0
  {
    hide *;
    LinesOfRest(lines);
    assert lines == [lines[0]] + lines[1..];
    var rest := Merge(lines[1..], update, beforeFirst);
    var copy := Copied(lines[0], beforeFirst);
    MergeSkips(lines[0], lines[1..], update, beforeFirst);
    ThenSkipped(copy, rest);
    ParseSkips(lines[0], lines[1..], msg);
    MergeReplaces(lines[1..], update, beforeFirst, msg);
    CopiedIsSkipped(lines[0], beforeFirst);
    ParseSkips(copy, rest.value.out, Replaced(msg, update));
  }

  lemma ThenSkipped(copy: string, rest: Result<Run, ParseError>)
    requires Run([copy], 0, 0, 0, 0).Then(rest).Success?
    ensures rest.Success?
    ensures Run([copy], 0, 0, 0, 0).Then(rest).value == rest.value.(out := [copy] + rest.value.out)
  {
  }

  lemma BeyondShrinks(rest: seq<string>)
    ensures |Beyond(rest)| <= |rest|
  {
  }

  lemma MergeEntryIsWritten(msgid: string, msgstr: string, update: map<string, string>, more: Run)
    ensures MergeEntry(msgid, msgstr, update).Plus(more).out
         == Written(msgid, Replacement(msgid, msgstr, update)) + more.out
  {
  }

  /** Merging the same updates again changes nothing, and reports nothing updated. */
  lemma {:induction false} MergeAgain(lines: seq<string>, update: map<string, string>, beforeFirst: bool)
    requires AreLines(lines) && CleanUpdates(update) && Merge(lines, update, beforeFirst).Success?
    ensures var run := Merge(lines, update, beforeFirst).value;
            Merge(run.out, update, beforeFirst) == Success(run.(updated := 0))
    decreases |lines|, 1
  {
    hide Trim;
    if lines == [] {
      assert Merge(lines, update, beforeFirst).value == NOTHING;
    } else if Skipped(Trim(lines[0])) {
      MergeAgainSkipped(lines, update, beforeFirst);
    } else {
      hide *;
      MergeStep(lines, update, beforeFirst);
      RestAreLines(lines);
      var e := EntryAt(lines, true).value;
      var first, parts := ReplacementParts(lines, update);
      var bf := beforeFirst && e.msgid == "";
      var more := Merge(Beyond(e.rest), update, bf).value;
      BeyondShrinks(e.rest);
      MergeAgain(Beyond(e.rest), update, bf);
      MergeEntryIsWritten(e.msgid, e.msgstr, update, more);
      MergeOfWritten(e.msgid, first, parts, more.out, update, beforeFirst);
      MergeEntryTwice(e.msgid, e.msgstr, update, more);
    }
  }

  lemma MergeAgainSkipped(lines: seq<string>, update: map<string, string>, beforeFirst: bool)
    requires lines != [] && Skipped(Trim(lines[0]))
    requires AreLines(lines) && CleanUpdates(update) && Merge(lines, update, beforeFirst).Success?
    ensures var run := Merge(lines, update, beforeFirst).value;
            Merge(run.out, update, beforeFirst) == Success(run.(updated := 0))
    decreases |lines|, 0
  {
    hide *;
    LinesOfRest(lines);
    assert lines == [lines[0]] + lines[1..];
    var rest := Merge(lines[1..], update, beforeFirst);
    var copy := Copied(lines[0], beforeFirst);
    MergeSkips(lines[0], lines[1..], update, beforeFirst);
    ThenSkipped(copy, rest);
    MergeAgain(lines[1..], update, beforeFirst);
    CopiedIsSkipped(lines[0], beforeFirst);
    MergeSkips(copy, rest.value.out, update, beforeFirst);
    SkippedThen(copy, Merge(rest.value.out, update, beforeFirst));
  }

  lemma SkippedThen(copy: string, rest: Result<Run, ParseError>)
    requires rest.Success?
    ensures Run([copy], 0, 0, 0, 0).Then(rest) == Success(rest.value.(out := [copy] + rest.value.out))
  {
  }

  lemma MergeEntryTwice(msgid: string, msgstr: string, update: map<string, string>, more: Run)
    ensures MergeEntry(msgid, Replacement(msgid, msgstr, update), update).Then(Success(more.(updated := 0)))
         == Success(MergeEntry(msgid, msgstr, update).Plus(more).(updated := 0))
  {
    hide Written;
    var v := Replacement(msgid, msgstr, update);
    assert Replacement(msgid, v, update) == v;
  }

  /** The counts add up. */
  lemma {:induction false} CountsAddUp(lines: seq<string>, update: map<string, string>, beforeFirst: bool)
    requires AreLines(lines) && Merge(lines, update, beforeFirst).Success?
    ensures var run := Merge(lines, update, beforeFirst).value;
            run.total == run.translated + run.untranslated && run.updated <= run.translated
    decreases |lines|
  {
    hide Trim;
    if lines == [] {
    } else if Skipped(Trim(lines[0])) {
      hide *;
      LinesOfRest(lines);
      assert lines == [lines[0]] + lines[1..];
      MergeSkips(lines[0], lines[1..], update, beforeFirst);
      ThenSkipped(Copied(lines[0], beforeFirst), Merge(lines[1..], update, beforeFirst));
      CountsAddUp(lines[1..], update, beforeFirst);
    } else {
      hide *;
      MergeStep(lines, update, beforeFirst);
      var e := EntryAt(lines, true).value;
      var bf := beforeFirst && e.msgid == "";
      RestAreLines(lines);
      BeyondShrinks(e.rest);
      CountsAddUp(Beyond(e.rest), update, bf);
      assert Merge(lines, update, beforeFirst).Success?;
      EntryCounts(e.msgid, e.msgstr, update, Merge(Beyond(e.rest), update, bf).value);
    }
  }

  lemma EntryCounts(msgid: string, msgstr: string, update: map<string, string>, more: Run)
    requires more.total == more.translated + more.untranslated && more.updated <= more.translated
    ensures var run := MergeEntry(msgid, msgstr, update).Plus(more);
            run.total == run.translated + run.untranslated && run.updated <= run.translated
  {
    hide Written;
  }

  /** The program as a whole: parse the update file, then merge it into the old one. */
  lemma ProgramIsCorrect(updateFile: seq<string>, oldFile: seq<string>)
    requires AreLines(updateFile) && AreLines(oldFile)
    requires Parse(updateFile, map[]).Success?
    requires Merge(oldFile, Parse(updateFile, map[]).value, true).Success?
    ensures var update := Parse(updateFile, map[]).value;
            var newFile := Merge(oldFile, update, true).value.out;
            && Parse(oldFile, map[]).Success?
            && Parse(newFile, map[]) == Success(Replaced(Parse(oldFile, map[]).value, update))
            && Merge(newFile, update, true).Success? && Merge(newFile, update, true).value.out == newFile
  {
    var update := Parse(updateFile, map[]).value;
    ParseGivesCleanUpdates(updateFile, map[]);
    MergeReplaces(oldFile, update, true, map[]);
    MergeAgain(oldFile, update, true);
    assert Replaced(map[], update) == map[];
  }
}
