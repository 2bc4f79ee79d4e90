/** ParseTranslation and UpdateTranslation: the merge tool's loops over the lines of a file. */
module PoMergeTool {
  import opened Bytes
  import opened PoFile
  import opened PoMerge
  import opened PoDocument

  /** One line at a time; None at the end of the file. */
  class StreamReader {
    const lines: seq<string>
    var next: nat

    ghost predicate Valid()
      reads this
    {
      next <= |lines|
    }

    ghost function Rest(): seq<string>
      requires Valid()
      reads this
    {
      lines[next..]
    }

    constructor (lines: seq<string>)
      ensures Valid() && Rest() == lines
    {
      this.lines := lines;
      next := 0;
    }

    method ReadLine() returns (line: Option<string>)
      requires Valid()
      modifies this
      ensures Valid()
      ensures line == if old(Rest()) == [] then None else Some(old(Rest())[0])
      ensures Rest() == Beyond(old(Rest()))
    {
      if next == |lines| {
        return None;
      }
      line := Some(lines[next]);
      next := next + 1;
    }
  }

  class StreamWriter {
    var lines: seq<string>

    constructor ()
      ensures lines == []
    {
      lines := [];
    }

    method WriteLine(s: string)
      modifies this
      ensures lines == old(lines) + SplitLines(s)
    {
      lines := lines + SplitLines(s);
    }
  }

  // One pass of the loops, in terms of the specification.

  lemma ParseAt(at: seq<string>, msg: map<string, string>)
    ensures at == [] ==> Parse(at, msg) == Success(msg)
    ensures at != [] && Skipped(Trim(at[0])) ==> Parse(at, msg) == Parse(Beyond(at), msg)
    ensures at != [] && !Skipped(Trim(at[0])) && EntryAt(at, false).Failure? ==>
              Parse(at, msg) == Failure(EntryAt(at, false).error)
    ensures at != [] && !Skipped(Trim(at[0])) && EntryAt(at, false).Success? ==>
              var e := EntryAt(at, false).value;
              && (e.rest != [] && !Ends(e.rest[0], false) ==> Parse(at, msg) == Failure(AfterMsgstr))
              && (e.rest != [] && Ends(e.rest[0], false) ==>
                    Parse(at, msg) == Parse(Beyond(e.rest), msg[e.msgid := e.msgstr]))
              && (e.rest == [] ==> Parse(at, msg) == Success(msg[e.msgid := e.msgstr]))
  {
    hide EntryAt, Trim, Skipped, Ends;
  }

  lemma GatherAt(at: seq<string>, strict: bool, glue: string, text: string)
    ensures at == [] || !Continues(at[0], strict) ==> Gather(at, strict, glue, text) == Success(Gathered(text, at))
    ensures at != [] && Continues(at[0], strict) ==>
              && |Trim(at[0])| > 0
              && (|Trim(at[0])| == 1 ==> Gather(at, strict, glue, text) == Failure(LoneQuote))
              && (|Trim(at[0])| >= 2 ==>
                    Gather(at, strict, glue, text) == Gather(Beyond(at), strict, glue, text + glue + Part(at[0])))
  {
    hide Trim;
  }

  /** The msgstr line of an entry, once its msgid has been gathered. */
  ghost function MsgstrFrom(id: Gathered): Result<Gathered, ParseError>
    requires id.rest != [] && Quotes(MSGSTR, Trim(id.rest[0]))
  {
    Gather(Beyond(id.rest), false, Glue(id.text), Inner(MSGSTR, Trim(id.rest[0])))
  }

  lemma EntryOf(at: seq<string>, strict: bool)
    requires at != []
    ensures !Quotes(MSGID, Trim(at[0])) ==> EntryAt(at, strict) == Failure(BeforeMsgid)
    ensures Quotes(MSGID, Trim(at[0])) ==>
              var id := Gather(Beyond(at), strict, "", Inner(MSGID, Trim(at[0])));
              && (id.Failure? ==> EntryAt(at, strict) == Failure(id.error))
              && (id.Success? && id.value.rest == [] ==> EntryAt(at, strict) == Failure(InMsgid))
              && (id.Success? && id.value.rest != [] && !Quotes(MSGSTR, Trim(id.value.rest[0])) ==>
                    EntryAt(at, strict) == Failure(AfterMsgid))
              && (id.Success? && id.value.rest != [] && Quotes(MSGSTR, Trim(id.value.rest[0])) ==>
                    var msg := MsgstrFrom(id.value);
                    && (msg.Failure? ==> EntryAt(at, strict) == Failure(msg.error))
                    && (msg.Success? ==>
                          EntryAt(at, strict) == Success(Entry(id.value.text, msg.value.text, msg.value.rest))))
  {
    hide Gather, Trim, Quotes, Inner;
  }

  ghost function First(rest: seq<string>): Option<string> {
    if rest == [] then None else Some(rest[0])
  }

  /** The loop over continuation lines; `line` is the line that ended it, if any. */
  method ReadContinuations(sr: StreamReader, strict: bool, glue: string, start: string)
    returns (r: Result<string, ParseError>, line: Option<string>)
    requires sr.Valid()
    modifies sr
    ensures sr.Valid()
    ensures var g := Gather(old(sr.Rest()), strict, glue, start);
            if g.Failure? then r == Failure(g.error)
            else r == Success(g.value.text) && line == First(g.value.rest) && sr.Rest() == Beyond(g.value.rest)
  {
    hide Gather, Trim;
    var text := start;
    ghost var at := sr.Rest();
    while true
      invariant sr.Valid() && at == sr.Rest()
      invariant Gather(at, strict, glue, text) == Gather(old(sr.Rest()), strict, glue, start)
      decreases |at|
    {
      line := sr.ReadLine();
      GatherAt(at, strict, glue, text);
      if line.None? {
        return Success(text), None;
      }
      var str := Trim(line.value);
      if |str| == 0 || line.value == "" || (if strict then line.value[0] else str[0]) != '\"' {
        return Success(text), line;
      }
      if |str| < 2 {
        return Failure(LoneQuote), None;
      }
      text := text + glue + str[1..|str| - 1];
      at := sr.Rest();
    }
  }

  /** From an msgid line, already read and trimmed, to the line that ends the entry. */
  method ReadEntry(sr: StreamReader, strict: bool, str: string, ghost at: seq<string>)
    returns (r: Result<(string, string), ParseError>, line: Option<string>)
    requires sr.Valid() && at != [] && str == Trim(at[0]) && !Skipped(str) && sr.Rest() == Beyond(at)
    modifies sr
    ensures sr.Valid()
    ensures var e := EntryAt(at, strict);
            if e.Failure? then r == Failure(e.error)
            else
              && r == Success((e.value.msgid, e.value.msgstr))
              && line == First(e.value.rest) && sr.Rest() == Beyond(e.value.rest)
  {
    hide Gather, Trim, EntryAt;
    EntryOf(at, strict);
    if !(MSGID <= str) || str[|str| - 1] != '\"' {
      return Failure(BeforeMsgid), None;
    }
    var msgid, next := ReadContinuations(sr, strict, "", if |str| <= 8 then "" else str[7..|str| - 1]);
    if msgid.Failure? {
      return Failure(msgid.error), None;
    }
    if next.None? {
      return Failure(InMsgid), None;
    }
    var str2 := Trim(next.value);
    if !(MSGSTR <= str2) || str2[|str2| - 1] != '\"' {
      return Failure(AfterMsgid), None;
    }
    var msgstr, last := ReadContinuations(sr, false, if |msgid.value| == 0 then NEXT_LINE else "",
                                          if |str2| <= 9 then "" else str2[8..|str2| - 1]);
    if msgstr.Failure? {
      return Failure(msgstr.error), None;
    }
    return Success((msgid.value, msgstr.value)), last;
  }

  method ParseTranslation(file: seq<string>) returns (r: Result<map<string, string>, ParseError>)
    ensures r == Parse(file, map[])
  {
    hide Parse, EntryAt, Trim;
    var msg: map<string, string> := map[];
    var sr := new StreamReader(file);
    ghost var at := sr.Rest();
    while true
      invariant sr.Valid() && fresh(sr) && at == sr.Rest() && Parse(at, msg) == Parse(file, map[])
      decreases |at|
    {
      var line := sr.ReadLine();
      ParseAt(at, msg);
      if line.None? {
        return Success(msg);
      }
      var str := Trim(line.value);
      if |str| >= 8 && str[0] != '#' {
        var entry, last := ReadEntry(sr, false, str, at);
        if entry.Failure? {
          return Failure(entry.error);
        }
        msg := msg[entry.value.0 := entry.value.1];
        if last.None? {
          return Success(msg);
        }
        var end := Trim(last.value);
        if |end| != 0 && end[0] != '#' {
          return Failure(AfterMsgstr);
        }
      }
      at := sr.Rest();
    }
  }

  lemma ThenPlus(a: Run, b: Run, rest: Result<Run, ParseError>)
    ensures a.Then(b.Then(rest)) == a.Plus(b).Then(rest)
  {
    if rest.Success? {
      Assoc(a.out, b.out, rest.value.out);
    }
  }

  lemma NothingThen(rest: Result<Run, ParseError>)
    ensures NOTHING.Then(rest) == rest
  {
    if rest.Success? {
      assert [] + rest.value.out == rest.value.out;
    }
  }

  lemma MergeAt(at: seq<string>, update: map<string, string>, beforeFirst: bool, done: Run)
    ensures at == [] ==> done.Then(Merge(at, update, beforeFirst)) == Success(done)
    ensures at != [] && Skipped(Trim(at[0])) ==>
              done.Then(Merge(at, update, beforeFirst))
              == done.Plus(Run(SplitLines(Copied(at[0], beforeFirst)), 0, 0, 0, 0)).Then(
                   Merge(Beyond(at), update, beforeFirst))
    ensures at != [] && !Skipped(Trim(at[0])) && EntryAt(at, true).Failure? ==>
              Merge(at, update, beforeFirst) == Failure(EntryAt(at, true).error)
    ensures at != [] && !Skipped(Trim(at[0])) && EntryAt(at, true).Success? ==>
              var e := EntryAt(at, true).value;
              var now := done.Plus(MergeEntry(e.msgid, e.msgstr, update));
              && (e.rest != [] && !Ends(e.rest[0], true) ==> Merge(at, update, beforeFirst) == Failure(AfterMsgstr))
              && (e.rest != [] && Ends(e.rest[0], true) ==>
                    done.Then(Merge(at, update, beforeFirst))
                    == now.Then(Merge(Beyond(e.rest), update, beforeFirst && e.msgid == "")))
              && (e.rest == [] ==> done.Then(Merge(at, update, beforeFirst)) == Success(now))
  {
    hide EntryAt, Trim, Skipped, Ends, SplitLines, MergeEntry, Copied;
    if at == [] {
      assert done.out + [] == done.out;
    } else if Skipped(Trim(at[0])) {
      ThenPlus(done, Run(SplitLines(Copied(at[0], beforeFirst)), 0, 0, 0, 0), Merge(Beyond(at), update, beforeFirst));
    } else if EntryAt(at, true).Success? {
      var e := EntryAt(at, true).value;
      if e.rest != [] && Ends(e.rest[0], true) {
        ThenPlus(done, MergeEntry(e.msgid, e.msgstr, update), Merge(Beyond(e.rest), update, beforeFirst && e.msgid == ""));
      }
    }
  }

  /** Writes the entry and counts it. */
  method WriteEntry(sw: StreamWriter, msgid: string, msgstr: string, update: map<string, string>,
                    total: nat, tr: nat, mt: nat, ut: nat)
    returns (total': nat, tr': nat, mt': nat, ut': nat)
    modifies sw
    ensures total' == 0 <==> total == 0 && msgid == ""
    ensures Run(sw.lines, total', tr', mt', ut')
         == Run(old(sw.lines), total, tr, mt, ut).Plus(MergeEntry(msgid, msgstr, update))
  {
    hide SplitLines;
    total', tr', mt', ut' := total, tr, mt, ut;
    if |msgid| > 0 {
      total' := total' + 1;
    }
    var str := if msgid in update then Some(update[msgid]) else None;
    var written := msgstr;
    if |msgid| <= 0 {
    } else if str.Some? && |str.value| > 0 {
      if msgstr != str.value {
        mt' := mt' + 1;
      }
      tr' := tr' + 1;
      written := str.value;
    } else if |msgstr| == 0 {
      ut' := ut' + 1;
    } else {
      tr' := tr' + 1;
    }
    Assoc(sw.lines, SplitLines(MSGID + msgid + QUOTE), SplitLines(MSGSTR + written + QUOTE + "\n"));
    sw.WriteLine(MSGID + msgid + QUOTE);
    sw.WriteLine(MSGSTR + written + QUOTE + "\n");
  }

  method UpdateTranslation(file: seq<string>, update: map<string, string>) returns (r: Result<Run, ParseError>)
    ensures r == Merge(file, update, true)
  {
    hide Merge, EntryAt, Trim, MergeEntry, SplitLines;
    var sr := new StreamReader(file);
    var sw := new StreamWriter();
    var total: nat, tr: nat, mt: nat, ut: nat := 0, 0, 0, 0;
    NothingThen(Merge(file, update, true));
    ghost var at := sr.Rest();
    while true
      invariant sr.Valid() && fresh(sr) && fresh(sw) && at == sr.Rest()
      invariant Run(sw.lines, total, tr, mt, ut).Then(Merge(at, update, total == 0)) == Merge(file, update, true)
      decreases |at|
    {
      var line := sr.ReadLine();
      MergeAt(at, update, total == 0, Run(sw.lines, total, tr, mt, ut));
      if line.None? {
        return Success(Run(sw.lines, total, tr, mt, ut));
      }
      var str := Trim(line.value);
      if |str| >= 8 && str[0] != '#' {
        var entry, last := ReadEntry(sr, true, str, at);
        if entry.Failure? {
          return Failure(entry.error);
        }
        total, tr, mt, ut := WriteEntry(sw, entry.value.0, entry.value.1, update, total, tr, mt, ut);
        if last.None? {
          return Success(Run(sw.lines, total, tr, mt, ut));
        }
        if |last.value| != 0 && last.value[0] != '#' {
          return Failure(AfterMsgstr);
        }
      } else {
        sw.WriteLine(if total == 0 && str == FUZZY then "" else line.value);
      }
      at := sr.Rest();
    }
  }

  /** The program: the translations of one file replace those of another. */
  method ReplaceTranslations(updateFile: seq<string>, oldFile: seq<string>) returns (r: Result<Run, ParseError>)
    requires AreLines(updateFile) && AreLines(oldFile)
    ensures r.Success? ==>
              && Parse(updateFile, map[]).Success? && Parse(oldFile, map[]).Success?
              && Parse(r.value.out, map[])
                 == Success(Replaced(Parse(oldFile, map[]).value, Parse(updateFile, map[]).value))
              && r.value.total == r.value.translated + r.value.untranslated
              && r.value.updated <= r.value.translated
    ensures r.Success? ==>
              var before, after := Document(oldFile), Document(r.value.out);
              && after == Edit(before, Parse(updateFile, map[]).value, true)
              && r.value.out == Print(after)
              && |after| == |before| && CountsAre(r.value, before, after)
    ensures r.Failure? ==>
              Parse(updateFile, map[]).Failure? || Merge(oldFile, Parse(updateFile, map[]).value, true).Failure?
  {
    assert CleanUpdates(map[]);
    hide *;
    var msg := ParseTranslation(updateFile);
    if msg.Failure? {
      return Failure(msg.error);
    }
    r := UpdateTranslation(oldFile, msg.value);
    if r.Success? {
      ProgramIsCorrect(updateFile, oldFile);
      ParseGivesCleanUpdates(updateFile, map[]);
      MergeIsEdit(oldFile, msg.value, true);
      CountsAddUp(oldFile, msg.value, true);
      CountsAreRight(oldFile, msg.value, true);
    }
  }
}
