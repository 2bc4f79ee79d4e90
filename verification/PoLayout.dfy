/** How a .po file lays out its entries on lines, and what either parser makes of each layout. */
module PoLayout {
  import opened Bytes
  import opened PoFile
  import opened PoMerge
  import opened PoDocument

  /** A line, and what it holds between its quotes. */
  datatype Piece = Piece(line: string, text: string)

  datatype Block =
    | Between(line: string)
    | Message(id: Piece, ids: seq<Piece>, str: Piece, strs: seq<Piece>, end: Option<string>)

  predicate OpensId(p: Piece) {
    Trim(p.line) == "msgid \"" + p.text + "\""
  }

  /** A lone quote passes for an empty msgstr. */
  predicate OpensStr(p: Piece) {
    Trim(p.line) == "msgstr \"" + p.text + "\"" || (Trim(p.line) == "msgstr \"" && p.text == "")
  }

  /** A quote and some text; whatever the last character is, it counts as the closing quote. */
  predicate Adds(p: Piece) {
    var t := Trim(p.line);
    |t| == |p.text| + 2 && t[0] == '\"' && t[1..|t| - 1] == p.text
  }

  ghost predicate AllAdd(ps: seq<Piece>) {
    forall i :: 0 <= i < |ps| ==> Adds(ps[i])
  }

  /** UpdateTranslation does not take an indented line for part of a msgid, or for the end of an entry. */
  ghost predicate Flush(ps: seq<Piece>) {
    forall i :: 0 <= i < |ps| ==> ps[i].line != "" && ps[i].line[0] == '\"'
  }

  predicate IsEnd(line: string, strict: bool) {
    var t := if strict then line else Trim(line);
    t == "" || t[0] == '#'
  }

  ghost predicate Valid(b: Block, strict: bool) {
    match b
    case Between(line) => |Trim(line)| < 8 || Trim(line)[0] == '#'
    case Message(id, ids, str, strs, end) =>
      && OpensId(id) && AllAdd(ids) && OpensStr(str) && AllAdd(strs)
      && (strict ==> Flush(ids))
      && (end.Some? ==> IsEnd(end.value, false) && IsEnd(end.value, strict))
  }

  /** Only the last entry may end with the file. */
  ghost predicate ValidFile(bs: seq<Block>, strict: bool)
    decreases |bs|
  {
    bs == [] || (Valid(bs[0], strict) && (bs[0].Message? && bs[0].end.None? ==> |bs| == 1) && ValidFile(bs[1..], strict))
  }

  function Lines(ps: seq<Piece>): seq<string> {
    if ps == [] then [] else [ps[0].line] + Lines(ps[1..])
  }

  function End(b: Block): seq<string>
    requires b.Message?
  {
    if b.end.Some? then [b.end.value] else []
  }

  function BlockLines(b: Block): seq<string> {
    match b
    case Between(line) => [line]
    case Message(id, ids, str, strs, end) => [id.line] + (Lines(ids) + ([str.line] + (Lines(strs) + End(b))))
  }

  function FileOf(bs: seq<Block>): seq<string> {
    if bs == [] then [] else BlockLines(bs[0]) + FileOf(bs[1..])
  }

  function Texts(ps: seq<Piece>, glue: string): string {
    if ps == [] then "" else glue + ps[0].text + Texts(ps[1..], glue)
  }

  function MsgidOf(b: Block): string
    requires b.Message?
  {
    b.id.text + Texts(b.ids, "")
  }

  /** The lines of a header are kept apart. */
  function MsgstrOf(b: Block): string
    requires b.Message?
  {
    b.str.text + Texts(b.strs, if MsgidOf(b) == "" then "\"\n\"" else "")
  }

  function ItemOf(b: Block): Item {
    if b.Between? then Line(b.line) else Pair(MsgidOf(b), MsgstrOf(b))
  }

  function Items(bs: seq<Block>): seq<Item> {
    if bs == [] then [] else [ItemOf(bs[0])] + Items(bs[1..])
  }

  // Trimming takes away the white space at both ends and nothing else.

  /** The white space of Unicode: five controls, NEL, and the separators. */
  const WHITE := "\t\n\U{0B}\U{0C}\r \U{85}\U{A0}\U{1680}\U{2000}\U{2001}\U{2002}\U{2003}\U{2004}\U{2005}"
                 + "\U{2006}\U{2007}\U{2008}\U{2009}\U{200A}\U{2028}\U{2029}\U{202F}\U{205F}\U{3000}"

  lemma WhiteSpaceIs(c: char)
    ensures IsWhite(c) <==> c in WHITE
  {
  }

  ghost predicate AllWhite(s: string) {
    forall i :: 0 <= i < |s| ==> IsWhite(s[i])
  }

  lemma {:induction false} TrimStartTakes(before: string, s: string)
    requires AllWhite(before) && s != "" && !IsWhite(s[0])
    ensures TrimStart(before + s) == s
    decreases |before|
  {
    if before == "" {
      assert before + s == s;
    } else {
      assert (before + s)[1..] == before[1..] + s && (before + s)[0] == before[0];
      TrimStartTakes(before[1..], s);
    }
  }

  lemma {:induction false} TrimEndTakes(s: string, after: string)
    requires AllWhite(after) && s != "" && !IsWhite(s[|s| - 1])
    ensures TrimEnd(s + after) == s
    decreases |after|
  {
    if after == "" {
      assert s + after == s;
    } else {
      var a := s + after;
      assert a[..|a| - 1] == s + after[..|after| - 1] && a[|a| - 1] == after[|after| - 1];
      TrimEndTakes(s, after[..|after| - 1]);
    }
  }

  lemma TrimTakes(before: string, s: string, after: string)
    requires AllWhite(before) && AllWhite(after) && s != "" && !IsWhite(s[0]) && !IsWhite(s[|s| - 1])
    ensures Trim(before + s + after) == s
  {
    Assoc(before, s, after);
    TrimStartTakes(before, s + after);
    TrimEndTakes(s, after);
  }

  // One entry.

  predicate NoQuote(rest: seq<string>) {
    rest == [] || Trim(rest[0]) == "" || Trim(rest[0])[0] != '\"'
  }

  lemma NoQuoteStops(rest: seq<string>, strict: bool, glue: string, text: string)
    requires NoQuote(rest)
    ensures Gather(rest, strict, glue, text) == Success(Gathered(text, rest))
  {
    hide Trim, IsWhite;
    if rest != [] && Continues(rest[0], true) {
      StrictContinues(rest[0]);
    }
  }

  lemma AddsPart(p: Piece, strict: bool)
    requires Adds(p) && (strict ==> p.line != "" && p.line[0] == '\"')
    ensures Continues(p.line, strict) && |Trim(p.line)| >= 2 && Part(p.line) == p.text
  {
    if p.line == "" {
      TrimEmpty();
    }
    hide Trim;
  }

  lemma TextsStep(text: string, ps: seq<Piece>, glue: string)
    requires ps != []
    ensures text + glue + ps[0].text + Texts(ps[1..], glue) == text + Texts(ps, glue)
  {
    Assoc(text + glue, ps[0].text, Texts(ps[1..], glue));
    Assoc(text, glue, ps[0].text + Texts(ps[1..], glue));
    Assoc(glue, ps[0].text, Texts(ps[1..], glue));
  }

  lemma NoPieces(rest: seq<string>, text: string, glue: string)
    ensures Lines([]) + rest == rest && text + Texts([], glue) == text
  {
  }

  lemma FirstPiece(ps: seq<Piece>, rest: seq<string>, strict: bool)
    requires ps != [] && AllAdd(ps) && (strict ==> Flush(ps))
    ensures Lines(ps) + rest == [ps[0].line] + (Lines(ps[1..]) + rest)
    ensures AllAdd(ps[1..]) && Adds(ps[0]) && (strict ==> Flush(ps[1..]) && ps[0].line != "" && ps[0].line[0] == '\"')
  {
    hide Adds;
    Assoc([ps[0].line], Lines(ps[1..]), rest);
  }

  lemma {:induction false} GatherPieces(ps: seq<Piece>, rest: seq<string>, strict: bool, glue: string, text: string)
    requires AllAdd(ps) && (strict ==> Flush(ps)) && NoQuote(rest)
    ensures Gather(Lines(ps) + rest, strict, glue, text) == Success(Gathered(text + Texts(ps, glue), rest))
    decreases |ps|
  {
    hide *;
    if ps == [] {
      NoPieces(rest, text, glue);
      NoQuoteStops(rest, strict, glue, text);
    } else {
      var p, more := ps[0], Lines(ps[1..]) + rest;
      FirstPiece(ps, rest, strict);
      AddsPart(p, strict);
      GatherNext(p.line, more, strict, glue, text);
      GatherPieces(ps[1..], rest, strict, glue, text + glue + p.text);
      TextsStep(text, ps, glue);
    }
  }

  lemma OpensIdInner(p: Piece)
    requires OpensId(p)
    ensures Quotes(MSGID, Trim(p.line)) && Inner(MSGID, Trim(p.line)) == p.text && !Skipped(Trim(p.line))
  {
    InnerQuoted(MSGID, p.text);
    hide Trim, Inner, Quotes;
  }

  lemma OpensStrInner(p: Piece, more: seq<string>)
    requires OpensStr(p)
    ensures Quotes(MSGSTR, Trim(p.line)) && Inner(MSGSTR, Trim(p.line)) == p.text && NoQuote([p.line] + more)
  {
    InnerQuoted(MSGSTR, p.text);
    hide Trim;
  }

  lemma EntryFromParts(lines: seq<string>, strict: bool, id: Gathered, end: Gathered)
    requires lines != [] && Quotes(MSGID, Trim(lines[0]))
    requires Gather(lines[1..], strict, "", Inner(MSGID, Trim(lines[0]))) == Success(id)
    requires id.rest != [] && Quotes(MSGSTR, Trim(id.rest[0]))
    requires Gather(id.rest[1..], false, Glue(id.text), Inner(MSGSTR, Trim(id.rest[0]))) == Success(end)
    ensures EntryAt(lines, strict) == Success(Entry(id.text, end.text, end.rest))
  {
    hide Trim, Quotes, Inner, Gather, Glue;
  }

  lemma GlueIs(msgid: string)
    ensures Glue(msgid) == if msgid == "" then "\"\n\"" else ""
  {
  }

  /** An entry, as far as its msgstr goes, before any line that is not quoted, or at the end of the file. */
  lemma EntryOfPieces(b: Block, rest: seq<string>, strict: bool)
    requires b.Message? && OpensId(b.id) && AllAdd(b.ids) && OpensStr(b.str) && AllAdd(b.strs)
    requires (strict ==> Flush(b.ids)) && NoQuote(rest)
    ensures EntryAt([b.id.line] + (Lines(b.ids) + ([b.str.line] + (Lines(b.strs) + rest))), strict)
         == Success(Entry(MsgidOf(b), MsgstrOf(b), rest))
  {
    var more := Lines(b.strs) + rest;
    var lines := [b.id.line] + (Lines(b.ids) + ([b.str.line] + more));
    var id := Gathered(MsgidOf(b), [b.str.line] + more);
    assert lines[1..] == Lines(b.ids) + id.rest && id.rest[1..] == more && lines[0] == b.id.line;
    assert MsgstrOf(b) == b.str.text + Texts(b.strs, Glue(id.text)) by {
      GlueIs(id.text);
    }
    assert MsgidOf(b) == b.id.text + Texts(b.ids, "");
    hide *;
    OpensIdInner(b.id);
    OpensStrInner(b.str, more);
    GatherPieces(b.ids, id.rest, strict, "", b.id.text);
    GatherPieces(b.strs, rest, false, Glue(id.text), b.str.text);
    EntryFromParts(lines, strict, id, Gathered(MsgstrOf(b), rest));
  }

  // Whole files.

  lemma EndHasNoQuote(line: string)
    requires IsEnd(line, false)
    ensures NoQuote([line])
  {
    hide Trim;
  }

  lemma EntryOfBlock(b: Block, tail: seq<string>, strict: bool)
    requires Valid(b, strict) && b.Message? && (b.end.None? ==> tail == [])
    ensures var lines := BlockLines(b) + tail;
            && lines != [] && !Skipped(Trim(lines[0]))
            && EntryAt(lines, strict) == Success(Entry(MsgidOf(b), MsgstrOf(b), End(b) + tail))
  {
    var rest := End(b) + tail;
    RejoinBlock(b, tail);
    assert NoQuote(rest) by {
      if b.end.Some? {
        EndHasNoQuote(b.end.value);
      }
    }
    assert OpensId(b.id) && AllAdd(b.ids) && OpensStr(b.str) && AllAdd(b.strs) && (strict ==> Flush(b.ids));
    hide *;
    OpensIdInner(b.id);
    EntryOfPieces(b, rest, strict);
  }

  lemma EndIs(b: Block, tail: seq<string>, strict: bool)
    requires Valid(b, strict) && b.Message? && (b.end.None? ==> tail == [])
    ensures var rest := End(b) + tail;
            && (rest != [] ==> Ends(rest[0], false) && Ends(rest[0], strict)) && Beyond(rest) == tail
  {
    hide Trim;
    if b.end.Some? {
      assert (End(b) + tail)[1..] == tail;
    }
  }

  lemma FileFirst(bs: seq<Block>, strict: bool)
    requires bs != [] && ValidFile(bs, strict)
    ensures Valid(bs[0], strict) && ValidFile(bs[1..], strict) && FileOf(bs) == BlockLines(bs[0]) + FileOf(bs[1..])
    ensures bs[0].Message? && bs[0].end.None? ==> FileOf(bs[1..]) == []
    ensures Items(bs) == [ItemOf(bs[0])] + Items(bs[1..])
  {
    hide Valid, BlockLines, ItemOf;
  }

  lemma BetweenIs(b: Block, tail: seq<string>, strict: bool)
    requires Valid(b, strict) && b.Between?
    ensures BlockLines(b) + tail == [b.line] + tail && Skipped(Trim(b.line)) && ItemOf(b) == Line(b.line)
  {
    hide Trim;
  }

  /** The map that the entries make up, a later one before an earlier one with the same msgid. */
  function Entered(d: seq<Item>, msg: map<string, string>): map<string, string> {
    if d == [] then msg
    else if d[0].Line? then Entered(d[1..], msg)
    else Entered(d[1..], msg[d[0].msgid := d[0].msgstr])
  }

  lemma EnteredFirst(it: Item, d: seq<Item>, msg: map<string, string>)
    ensures Entered([it] + d, msg) == Entered(d, if it.Line? then msg else msg[it.msgid := it.msgstr])
  {
    assert ([it] + d)[1..] == d;
  }

  lemma ParseFrom(lines: seq<string>, e: Entry, msg: map<string, string>)
    requires lines != [] && !Skipped(Trim(lines[0])) && EntryAt(lines, false) == Success(e)
    ensures |Beyond(e.rest)| < |lines|
    ensures (e.rest != [] ==> Ends(e.rest[0], false)) ==>
              && Parse(lines, msg) == Parse(Beyond(e.rest), msg[e.msgid := e.msgstr])
              && Document(lines) == [Pair(e.msgid, e.msgstr)] + Document(Beyond(e.rest))
    ensures e.rest != [] && !Ends(e.rest[0], false) ==> Parse(lines, msg) == Failure(AfterMsgstr)
  {
    assert |EntryAt(lines, false).value.rest| < |lines|;
    hide EntryAt, Trim, Skipped, Ends;
  }

  /**
   * A file that is laid out in this way is read as its entries: each msgid and msgstr is its pieces in a
   * row, the lines of a header apart, and of two entries with the same msgid the later one counts.
   */
  lemma {:induction false} FileIsRead(bs: seq<Block>, msg: map<string, string>)
    requires ValidFile(bs, false)
    ensures Document(FileOf(bs)) == Items(bs)
    ensures Parse(FileOf(bs), msg) == Success(Entered(Items(bs), msg))
    decreases |bs|
  {
    if bs == [] {
      assert Document([]) == [] && Parse([], msg) == Success(msg) && Entered([], msg) == msg;
    } else {
      FileFirst(bs, false);
      var b, tail := bs[0], FileOf(bs[1..]);
      if b.Between? {
        hide *;
        BetweenIs(b, tail, false);
        ParseSkips(b.line, tail, msg);
        DocumentSkips(b.line, tail);
        FileIsRead(bs[1..], msg);
        EnteredFirst(Line(b.line), Items(bs[1..]), msg);
      } else {
        var id, str := MsgidOf(b), MsgstrOf(b);
        var e := Entry(id, str, End(b) + tail);
        assert ItemOf(b) == Pair(id, str);
        hide *;
        EntryOfBlock(b, tail, false);
        EndIs(b, tail, false);
        ParseFrom(FileOf(bs), e, msg);
        FileIsRead(bs[1..], msg[id := str]);
        EnteredFirst(Pair(id, str), Items(bs[1..]), msg);
      }
    }
  }

  // Every file that is accepted is laid out in this way.

  lemma AddsIs(line: string, strict: bool) returns (p: Piece)
    requires Continues(line, strict) && |Trim(line)| != 1
    ensures Adds(p) && p.line == line && p.text == Part(line) && (strict ==> line != "" && line[0] == '"')
  {
    if strict {
      StrictContinues(line);
    }
    p := Piece(line, Part(line));
    hide Trim;
  }

  lemma PieceThen(p: Piece, more: seq<Piece>, rest: seq<string>, strict: bool)
    requires Adds(p) && AllAdd(more) && (strict ==> Flush(more) && p.line != "" && p.line[0] == '\"')
    ensures AllAdd([p] + more) && (strict ==> Flush([p] + more))
    ensures Lines([p] + more) + rest == [p.line] + (Lines(more) + rest)
  {
    hide Adds;
    assert ([p] + more)[1..] == more;
    Assoc([p.line], Lines(more), rest);
  }

  lemma {:induction false} PiecesOf(lines: seq<string>, strict: bool, glue: string, text: string)
    returns (ps: seq<Piece>, rest: seq<string>)
    requires Gather(lines, strict, glue, text).Success?
    ensures AllAdd(ps) && (strict ==> Flush(ps)) && lines == Lines(ps) + rest
    ensures Gather(lines, strict, glue, text).value.rest == rest
    ensures rest != [] ==> !Continues(rest[0], strict)
    decreases |lines|
  {
    if lines == [] || !Continues(lines[0], strict) {
      hide *;
      ps, rest := [], lines;
      NoPieces(rest, text, glue);
    } else {
      var t := Trim(lines[0]);
      assert |t| != 1;
      assert Gather(lines[1..], strict, glue, text + glue + t[1..|t| - 1]) == Gather(lines, strict, glue, text);
      hide *;
      var more;
      more, rest := PiecesOf(lines[1..], strict, glue, text + glue + t[1..|t| - 1]);
      var p := AddsIs(lines[0], strict);
      ps := [p] + more;
      PieceThen(p, more, rest, strict);
      assert lines == [lines[0]] + lines[1..];
    }
  }

  lemma OpensIdOf(line: string) returns (p: Piece)
    requires Quotes(MSGID, Trim(line)) && !Skipped(Trim(line))
    ensures OpensId(p) && p.line == line
  {
    var t := Trim(line);
    assert t == "msgid \"" + t[7..|t| - 1] + "\"";
    p := Piece(line, t[7..|t| - 1]);
  }

  lemma OpensStrOf(line: string) returns (p: Piece)
    requires Quotes(MSGSTR, Trim(line))
    ensures OpensStr(p) && p.line == line
  {
    var t := Trim(line);
    if |t| == 8 {
      p := Piece(line, "");
    } else {
      assert t == "msgstr \"" + t[8..|t| - 1] + "\"";
      p := Piece(line, t[8..|t| - 1]);
    }
  }

  lemma BlockOfEntry(lines: seq<string>) returns (b: Block)
    requires lines != [] && !Skipped(Trim(lines[0])) && EntryAt(lines, false).Success?
    requires var rest := EntryAt(lines, false).value.rest;
             rest != [] ==> Ends(rest[0], false)
    ensures Valid(b, false) && b.Message?
    ensures var rest := EntryAt(lines, false).value.rest;
            lines == BlockLines(b) + Beyond(rest) && (b.end.None? <==> rest == [])
  {
    hide *;
    var g := PartsOfEntry(lines);
    var rest := EntryAt(lines, false).value.rest;
    var id := OpensIdOf(lines[0]);
    var ids, after := PiecesOf(lines[1..], false, "", Inner(MSGID, Trim(lines[0])));
    var str := OpensStrOf(g.rest[0]);
    var strs, end := PiecesOf(g.rest[1..], false, Glue(g.text), Inner(MSGSTR, Trim(g.rest[0])));
    b := Message(id, ids, str, strs, if rest == [] then None else Some(rest[0]));
    BlockIsValid(b, rest);
    RejoinBlock(b, Beyond(rest));
    assert g.rest == [g.rest[0]] + g.rest[1..] && lines == [lines[0]] + lines[1..];
  }

  lemma PartsOfEntry(lines: seq<string>) returns (g: Gathered)
    requires lines != [] && EntryAt(lines, false).Success?
    ensures Quotes(MSGID, Trim(lines[0]))
    ensures Gather(lines[1..], false, "", Inner(MSGID, Trim(lines[0]))) == Success(g)
    ensures g.rest != [] && Quotes(MSGSTR, Trim(g.rest[0]))
    ensures var msg := Gather(g.rest[1..], false, Glue(g.text), Inner(MSGSTR, Trim(g.rest[0])));
            msg.Success? && msg.value.rest == EntryAt(lines, false).value.rest
  {
    g := Gather(lines[1..], false, "", Inner(MSGID, Trim(lines[0]))).value;
    hide Gather, Trim, Quotes, Inner;
  }

  lemma BlockIsValid(b: Block, rest: seq<string>)
    requires b.Message? && OpensId(b.id) && AllAdd(b.ids) && OpensStr(b.str) && AllAdd(b.strs)
    requires b.end == if rest == [] then None else Some(rest[0])
    requires rest != [] ==> Ends(rest[0], false)
    ensures Valid(b, false) && rest == End(b) + Beyond(rest) && (b.end.None? <==> rest == [])
  {
    hide Trim, OpensId, OpensStr, Adds;
  }

  lemma RejoinBlock(b: Block, tail: seq<string>)
    requires b.Message?
    ensures BlockLines(b) + tail == [b.id.line] + (Lines(b.ids) + ([b.str.line] + (Lines(b.strs) + (End(b) + tail))))
  {
    var s := [b.str.line] + (Lines(b.strs) + End(b));
    hide Lines;
    Assoc([b.id.line], Lines(b.ids) + s, tail);
    Assoc(Lines(b.ids), s, tail);
    Assoc([b.str.line], Lines(b.strs) + End(b), tail);
    Assoc(Lines(b.strs), End(b), tail);
  }

  lemma ParseGoesOn(lines: seq<string>, msg: map<string, string>)
    requires lines != [] && Parse(lines, msg).Success?
    ensures Skipped(Trim(lines[0])) ==> Parse(lines[1..], msg).Success?
    ensures !Skipped(Trim(lines[0])) ==>
              && EntryAt(lines, false).Success?
              && var e := EntryAt(lines, false).value;
                 (e.rest != [] ==> Ends(e.rest[0], false)) && |Beyond(e.rest)| < |lines|
                 && Parse(Beyond(e.rest), msg[e.msgid := e.msgstr]).Success?
  {
    if !Skipped(Trim(lines[0])) {
      assert EntryAt(lines, false).Success?;
      hide EntryAt, Trim, Skipped, Ends;
    }
  }

  lemma {:induction false} LayoutOf(lines: seq<string>, msg: map<string, string>) returns (bs: seq<Block>)
    requires Parse(lines, msg).Success?
    ensures ValidFile(bs, false) && FileOf(bs) == lines
    decreases |lines|
  {
    if lines == [] {
      bs := [];
    } else {
      hide *;
      ParseGoesOn(lines, msg);
      var b, more;
      if Skipped(Trim(lines[0])) {
        more := LayoutOf(lines[1..], msg);
        b := Between(lines[0]);
        SkippedIsBetween(lines[0]);
        assert lines == [lines[0]] + lines[1..];
      } else {
        var e := EntryAt(lines, false).value;
        more := LayoutOf(Beyond(e.rest), msg[e.msgid := e.msgstr]);
        b := BlockOfEntry(lines);
        if b.end.None? {
          NothingBeyond();
          NoLines(more);
        }
      }
      bs := [b] + more;
      FileThen(b, more);
    }
  }

  lemma NothingBeyond()
    ensures Beyond([]) == []
  {
  }

  lemma SkippedIsBetween(line: string)
    requires Skipped(Trim(line))
    ensures Valid(Between(line), false) && BlockLines(Between(line)) == [line]
  {
    hide Trim;
  }

  lemma NoLines(bs: seq<Block>)
    ensures FileOf(bs) == [] ==> bs == []
  {
    if bs != [] {
      assert |BlockLines(bs[0])| >= 1;
    }
  }

  lemma FileThen(b: Block, more: seq<Block>)
    requires Valid(b, false) && ValidFile(more, false) && (b.Message? && b.end.None? ==> more == [])
    ensures ValidFile([b] + more, false) && FileOf([b] + more) == BlockLines(b) + FileOf(more)
  {
    hide Valid, BlockLines;
    assert ([b] + more)[1..] == more;
  }

  /** The files that ParseTranslation accepts are exactly those that are laid out as blocks. */
  lemma AcceptedIffLaidOut(lines: seq<string>, msg: map<string, string>)
    ensures Parse(lines, msg).Success? <==> exists bs :: ValidFile(bs, false) && FileOf(bs) == lines
  {
    hide *;
    if Parse(lines, msg).Success? {
      var bs := LayoutOf(lines, msg);
    }
    if bs :| ValidFile(bs, false) && FileOf(bs) == lines {
      FileIsRead(bs, msg);
    }
  }

  // The first fault of a file decides the error.

  datatype Fault =
    | NoMsgid(line: string, rest: seq<string>)
    | EndsInMsgid(id: Piece, ids: seq<Piece>)
    | LoneQuoteInMsgid(id: Piece, ids: seq<Piece>, line: string, rest: seq<string>)
    | NoMsgstr(id: Piece, ids: seq<Piece>, line: string, rest: seq<string>)
    | LoneQuoteInMsgstr(id: Piece, ids: seq<Piece>, str: Piece, strs: seq<Piece>, line: string, rest: seq<string>)
    | NoEnd(id: Piece, ids: seq<Piece>, str: Piece, strs: seq<Piece>, line: string, rest: seq<string>)

  predicate Framed(keyword: string, line: string) {
    var t := Trim(line);
    keyword <= t && t != "" && t[|t| - 1] == '\"'
  }

  predicate IsLoneQuote(line: string, strict: bool) {
    Trim(line) == "\"" && (strict ==> line != "" && line[0] == '\"')
  }

  ghost predicate ValidFault(f: Fault, strict: bool) {
    match f
    case NoMsgid(line, _) => |Trim(line)| >= 8 && Trim(line)[0] != '#' && !Framed("msgid \"", line)
    case EndsInMsgid(id, ids) => OpensId(id) && AllAdd(ids) && (strict ==> Flush(ids))
    case LoneQuoteInMsgid(id, ids, line, _) =>
      OpensId(id) && AllAdd(ids) && (strict ==> Flush(ids)) && IsLoneQuote(line, strict)
    case NoMsgstr(id, ids, line, _) =>
      OpensId(id) && AllAdd(ids) && (strict ==> Flush(ids)) && NoQuote([line]) && !Framed("msgstr \"", line)
    case LoneQuoteInMsgstr(id, ids, str, strs, line, _) =>
      && OpensId(id) && AllAdd(ids) && (strict ==> Flush(ids))
      && OpensStr(str) && AllAdd(strs) && IsLoneQuote(line, false)
    case NoEnd(id, ids, str, strs, line, _) =>
      && OpensId(id) && AllAdd(ids) && (strict ==> Flush(ids))
      && OpensStr(str) && AllAdd(strs) && NoQuote([line]) && !IsEnd(line, strict)
  }

  function FaultLines(f: Fault): (lines: seq<string>)
    ensures lines != []
  {
    match f
    case NoMsgid(line, rest) => [line] + rest
    case EndsInMsgid(id, ids) => [id.line] + Lines(ids)
    case LoneQuoteInMsgid(id, ids, line, rest) => [id.line] + (Lines(ids) + ([line] + rest))
    case NoMsgstr(id, ids, line, rest) => [id.line] + (Lines(ids) + ([line] + rest))
    case LoneQuoteInMsgstr(id, ids, str, strs, line, rest) =>
      [id.line] + (Lines(ids) + ([str.line] + (Lines(strs) + ([line] + rest))))
    case NoEnd(id, ids, str, strs, line, rest) =>
      [id.line] + (Lines(ids) + ([str.line] + (Lines(strs) + ([line] + rest))))
  }

  function ErrorOf(f: Fault): ParseError {
    match f
    case NoMsgid(_, _) => BeforeMsgid
    case EndsInMsgid(_, _) => InMsgid
    case LoneQuoteInMsgid(_, _, _, _) => LoneQuote
    case NoMsgstr(_, _, _, _) => AfterMsgid
    case LoneQuoteInMsgstr(_, _, _, _, _, _) => LoneQuote
    case NoEnd(_, _, _, _, _, _) => AfterMsgstr
  }

  lemma LoneQuoteFails(line: string, more: seq<string>, strict: bool, glue: string, text: string)
    requires IsLoneQuote(line, strict)
    ensures Gather([line] + more, strict, glue, text) == Failure(LoneQuote)
  {
    if line == "" {
      TrimEmpty();
    }
    hide Trim;
  }

  lemma {:induction false} GatherToLoneQuote(ps: seq<Piece>, line: string, more: seq<string>, strict: bool, glue: string,
                                             text: string)
    requires AllAdd(ps) && (strict ==> Flush(ps)) && IsLoneQuote(line, strict)
    ensures Gather(Lines(ps) + ([line] + more), strict, glue, text) == Failure(LoneQuote)
    decreases |ps|
  {
    hide *;
    var rest := [line] + more;
    if ps == [] {
      NoPieces(rest, text, glue);
      LoneQuoteFails(line, more, strict, glue, text);
    } else {
      FirstPiece(ps, rest, strict);
      AddsPart(ps[0], strict);
      GatherNext(ps[0].line, Lines(ps[1..]) + rest, strict, glue, text);
      GatherToLoneQuote(ps[1..], line, more, strict, glue, text + glue + ps[0].text);
    }
  }

  lemma FaultBeforeMsgid(line: string, rest: seq<string>, strict: bool)
    requires !Framed("msgid \"", line)
    ensures EntryAt([line] + rest, strict) == Failure(BeforeMsgid)
  {
    hide Trim, Gather;
  }

  lemma FaultInMsgid(lines: seq<string>, strict: bool)
    requires lines != [] && Quotes(MSGID, Trim(lines[0]))
    ensures var g := Gather(lines[1..], strict, "", Inner(MSGID, Trim(lines[0])));
            && (g.Failure? ==> EntryAt(lines, strict) == Failure(g.error))
            && (g.Success? && g.value.rest == [] ==> EntryAt(lines, strict) == Failure(InMsgid))
            && (g.Success? && g.value.rest != [] && !Framed("msgstr \"", g.value.rest[0]) ==>
                  EntryAt(lines, strict) == Failure(AfterMsgid))
  {
    hide Trim, Gather, Inner;
  }

  lemma FaultInMsgstr(lines: seq<string>, strict: bool, id: Gathered, e: ParseError)
    requires lines != [] && Quotes(MSGID, Trim(lines[0]))
    requires Gather(lines[1..], strict, "", Inner(MSGID, Trim(lines[0]))) == Success(id)
    requires id.rest != [] && Quotes(MSGSTR, Trim(id.rest[0]))
    requires Gather(id.rest[1..], false, Glue(id.text), Inner(MSGSTR, Trim(id.rest[0]))) == Failure(e)
    ensures EntryAt(lines, strict) == Failure(e)
  {
    hide Trim, Gather, Inner, Quotes, Glue;
  }

  lemma FaultyMsgstr(id: Piece, ids: seq<Piece>, str: Piece, strs: seq<Piece>, line: string, rest: seq<string>, strict: bool)
    requires OpensId(id) && AllAdd(ids) && (strict ==> Flush(ids)) && OpensStr(str) && AllAdd(strs)
    requires IsLoneQuote(line, false)
    ensures EntryAt([id.line] + (Lines(ids) + ([str.line] + (Lines(strs) + ([line] + rest)))), strict) == Failure(LoneQuote)
  {
    hide *;
    var more := Lines(strs) + ([line] + rest);
    var g := Gathered(id.text + Texts(ids, ""), [str.line] + more);
    var lines := [id.line] + (Lines(ids) + g.rest);
    assert lines[1..] == Lines(ids) + g.rest && g.rest[1..] == more && lines[0] == id.line && g.rest[0] == str.line;
    OpensIdInner(id);
    OpensStrInner(str, more);
    GatherPieces(ids, g.rest, strict, "", id.text);
    GatherToLoneQuote(strs, line, rest, false, Glue(g.text), str.text);
    FaultInMsgstr(lines, strict, g, LoneQuote);
  }

  lemma FaultyMsgid(id: Piece, ids: seq<Piece>, rest: seq<string>, strict: bool)
    requires OpensId(id) && AllAdd(ids) && (strict ==> Flush(ids))
    ensures var e := EntryAt([id.line] + (Lines(ids) + rest), strict);
            && (rest == [] ==> e == Failure(InMsgid))
            && (rest != [] && NoQuote([rest[0]]) && !Framed("msgstr \"", rest[0]) ==> e == Failure(AfterMsgid))
            && (rest != [] && IsLoneQuote(rest[0], strict) ==> e == Failure(LoneQuote))
  {
    assert rest != [] && NoQuote([rest[0]]) ==> NoQuote(rest);
    assert NoQuote([]);
    hide *;
    var lines := [id.line] + (Lines(ids) + rest);
    assert lines[1..] == Lines(ids) + rest && lines[0] == id.line;
    OpensIdInner(id);
    FaultInMsgid(lines, strict);
    if NoQuote(rest) {
      GatherPieces(ids, rest, strict, "", id.text);
    }
    if rest != [] && IsLoneQuote(rest[0], strict) {
      assert rest == [rest[0]] + rest[1..];
      GatherToLoneQuote(ids, rest[0], rest[1..], strict, "", id.text);
    }
  }

  /** What is left of the entry when it has no proper end. */
  ghost predicate Stops(lines: seq<string>, strict: bool, e: ParseError)
    requires lines != []
  {
    var entry := EntryAt(lines, strict);
    && !Skipped(Trim(lines[0]))
    && if entry.Failure? then entry.error == e
       else e == AfterMsgstr && entry.value.rest != [] && !Ends(entry.value.rest[0], strict)
  }

  lemma FailedStops(lines: seq<string>, strict: bool, e: ParseError)
    requires lines != [] && !Skipped(Trim(lines[0])) && EntryAt(lines, strict) == Failure(e)
    ensures Stops(lines, strict, e)
  {
    hide Trim, EntryAt, Skipped;
  }

  lemma UnendedStops(lines: seq<string>, strict: bool, e: Entry)
    requires lines != [] && !Skipped(Trim(lines[0])) && EntryAt(lines, strict) == Success(e)
    requires e.rest != [] && !IsEnd(e.rest[0], strict)
    ensures Stops(lines, strict, AfterMsgstr)
  {
    hide Trim, EntryAt, Skipped;
  }

  lemma NoMsgidStops(line: string, rest: seq<string>, strict: bool)
    requires |Trim(line)| >= 8 && Trim(line)[0] != '#' && !Framed("msgid \"", line)
    ensures Stops([line] + rest, strict, BeforeMsgid)
  {
    assert !Skipped(Trim(line)) && ([line] + rest)[0] == line;
    hide *;
    FaultBeforeMsgid(line, rest, strict);
    FailedStops([line] + rest, strict, BeforeMsgid);
  }

  lemma MsgidStops(id: Piece, ids: seq<Piece>, rest: seq<string>, strict: bool)
    requires OpensId(id) && AllAdd(ids) && (strict ==> Flush(ids))
    ensures var lines := [id.line] + (Lines(ids) + rest);
            && (rest == [] ==> Stops(lines, strict, InMsgid))
            && (rest != [] && NoQuote([rest[0]]) && !Framed("msgstr \"", rest[0]) ==> Stops(lines, strict, AfterMsgid))
            && (rest != [] && IsLoneQuote(rest[0], strict) ==> Stops(lines, strict, LoneQuote))
  {
    hide *;
    var lines := [id.line] + (Lines(ids) + rest);
    assert lines[0] == id.line;
    OpensIdInner(id);
    FaultyMsgid(id, ids, rest, strict);
    if rest == [] {
      FailedStops(lines, strict, InMsgid);
    } else {
      if NoQuote([rest[0]]) && !Framed("msgstr \"", rest[0]) {
        FailedStops(lines, strict, AfterMsgid);
      }
      if IsLoneQuote(rest[0], strict) {
        FailedStops(lines, strict, LoneQuote);
      }
    }
  }

  lemma MsgstrStops(id: Piece, ids: seq<Piece>, str: Piece, strs: seq<Piece>, line: string, rest: seq<string>, strict: bool)
    requires OpensId(id) && AllAdd(ids) && (strict ==> Flush(ids)) && OpensStr(str) && AllAdd(strs)
    ensures var lines := [id.line] + (Lines(ids) + ([str.line] + (Lines(strs) + ([line] + rest))));
            && (IsLoneQuote(line, false) ==> Stops(lines, strict, LoneQuote))
            && (NoQuote([line]) && !IsEnd(line, strict) ==> Stops(lines, strict, AfterMsgstr))
  {
    assert NoQuote([line]) ==> NoQuote([line] + rest);
    hide *;
    var lines := [id.line] + (Lines(ids) + ([str.line] + (Lines(strs) + ([line] + rest))));
    assert lines[0] == id.line;
    OpensIdInner(id);
    if IsLoneQuote(line, false) {
      FaultyMsgstr(id, ids, str, strs, line, rest, strict);
      FailedStops(lines, strict, LoneQuote);
    }
    if NoQuote([line]) && !IsEnd(line, strict) {
      var b := Message(id, ids, str, strs, None);
      EntryOfPieces(b, [line] + rest, strict);
      UnendedStops(lines, strict, Entry(MsgidOf(b), MsgstrOf(b), [line] + rest));
    }
  }

  lemma FaultStops(f: Fault, strict: bool)
    requires ValidFault(f, strict)
    ensures Stops(FaultLines(f), strict, ErrorOf(f))
  {
    hide Trim, Stops, OpensId, OpensStr, AllAdd, Flush, Lines, NoQuote, Framed, IsLoneQuote, IsEnd;
    match f
    case NoMsgid(line, rest) => NoMsgidStops(line, rest, strict);
    case EndsInMsgid(id, ids) => {
      NothingMore(Lines(ids));
      MsgidStops(id, ids, [], strict);
    }
    case LoneQuoteInMsgid(id, ids, line, rest) => MsgidStops(id, ids, [line] + rest, strict);
    case NoMsgstr(id, ids, line, rest) => MsgidStops(id, ids, [line] + rest, strict);
    case LoneQuoteInMsgstr(id, ids, str, strs, line, rest) => MsgstrStops(id, ids, str, strs, line, rest, strict);
    case NoEnd(id, ids, str, strs, line, rest) => MsgstrStops(id, ids, str, strs, line, rest, strict);
  }

  ghost predicate Complete(bs: seq<Block>) {
    forall i :: 0 <= i < |bs| && bs[i].Message? ==> bs[i].end.Some?
  }

  lemma ParseStops(lines: seq<string>, e: ParseError, msg: map<string, string>)
    requires lines != [] && Stops(lines, false, e)
    ensures Parse(lines, msg) == Failure(e)
  {
    hide Trim, EntryAt, Ends, Skipped;
  }

  lemma MergeStops(lines: seq<string>, e: ParseError, update: map<string, string>, header: bool)
    requires lines != [] && Stops(lines, true, e)
    ensures Merge(lines, update, header) == Failure(e)
  {
    hide Trim, EntryAt, Ends, Skipped, MergeEntry, SplitLines;
  }

  lemma FileThenRest(bs: seq<Block>, rest: seq<string>, strict: bool)
    requires bs != [] && ValidFile(bs, strict) && Complete(bs)
    ensures Valid(bs[0], strict) && ValidFile(bs[1..], strict) && Complete(bs[1..])
    ensures bs[0].Message? ==> bs[0].end.Some?
    ensures FileOf(bs) + rest == BlockLines(bs[0]) + (FileOf(bs[1..]) + rest)
  {
    hide Valid, BlockLines;
    Assoc(BlockLines(bs[0]), FileOf(bs[1..]), rest);
  }

  /** Whatever the entries before it, the first fault is what ParseTranslation reports. */
  lemma {:induction false} ParseReportsFault(bs: seq<Block>, f: Fault, msg: map<string, string>)
    requires ValidFile(bs, false) && Complete(bs) && ValidFault(f, false)
    ensures Parse(FileOf(bs) + FaultLines(f), msg) == Failure(ErrorOf(f))
    decreases |bs|
  {
    var bad := FaultLines(f);
    if bs == [] {
      assert FileOf(bs) + bad == bad;
      hide *;
      FaultStops(f, false);
      ParseStops(bad, ErrorOf(f), msg);
    } else {
      hide *;
      FileThenRest(bs, bad, false);
      var b, tail := bs[0], FileOf(bs[1..]) + bad;
      if b.Between? {
        BetweenIs(b, tail, false);
        ParseSkips(b.line, tail, msg);
        ParseReportsFault(bs[1..], f, msg);
      } else {
        EntryOfBlock(b, tail, false);
        EndIs(b, tail, false);
        ParseFrom(BlockLines(b) + tail, Entry(MsgidOf(b), MsgstrOf(b), End(b) + tail), msg);
        ParseReportsFault(bs[1..], f, msg[MsgidOf(b) := MsgstrOf(b)]);
      }
    }
  }

  lemma MergeFrom(lines: seq<string>, e: Entry, update: map<string, string>, header: bool)
    requires lines != [] && !Skipped(Trim(lines[0])) && EntryAt(lines, true) == Success(e)
    requires e.rest != [] ==> Ends(e.rest[0], true)
    ensures |Beyond(e.rest)| < |lines|
    ensures var more := Merge(Beyond(e.rest), update, header && e.msgid == "");
            var run := Merge(lines, update, header);
            if more.Failure? then run == more else run.Success?
  {
    assert |EntryAt(lines, true).value.rest| < |lines|;
    hide EntryAt, Trim, Skipped, Ends, MergeEntry;
  }

  lemma MergeFromNext(line: string, tail: seq<string>, update: map<string, string>, header: bool)
    requires Skipped(Trim(line))
    ensures var more, run := Merge(tail, update, header), Merge([line] + tail, update, header);
            if more.Failure? then run == more else run.Success?
  {
    hide Trim, Skipped, SplitLines, Copied;
    assert ([line] + tail)[1..] == tail;
  }

  /** UpdateTranslation takes a file that is laid out without indenting, or reports the first fault. */
  lemma {:induction false} MergeTakesOrReports(bs: seq<Block>, fault: Option<Fault>, update: map<string, string>,
                                               header: bool)
    requires ValidFile(bs, true)
    requires fault.Some? ==> Complete(bs) && ValidFault(fault.value, true)
    ensures fault.None? ==> Merge(FileOf(bs), update, header).Success?
    ensures fault.Some? ==> Merge(FileOf(bs) + FaultLines(fault.value), update, header) == Failure(ErrorOf(fault.value))
    decreases |bs|
  {
    var bad := if fault.Some? then FaultLines(fault.value) else [];
    assert FileOf(bs) + [] == FileOf(bs);
    if bs == [] {
      assert FileOf(bs) + bad == bad && Merge([], update, header).Success?;
      hide *;
      if fault.Some? {
        FaultStops(fault.value, true);
        MergeStops(bad, ErrorOf(fault.value), update, header);
      }
    } else {
      hide *;
      FileFirst(bs, true);
      var b, tail := bs[0], FileOf(bs[1..]) + bad;
      if fault.Some? {
        FileThenRest(bs, bad, true);
      } else {
        NothingMore(FileOf(bs[1..]));
      }
      if b.Between? {
        BetweenIs(b, tail, true);
        MergeFromNext(b.line, tail, update, header);
        MergeTakesOrReports(bs[1..], fault, update, header);
      } else {
        EntryOfBlock(b, tail, true);
        EndIs(b, tail, true);
        MergeFrom(BlockLines(b) + tail, Entry(MsgidOf(b), MsgstrOf(b), End(b) + tail), update, header);
        MergeTakesOrReports(bs[1..], fault, update, header && MsgidOf(b) == "");
      }
    }
  }

  lemma NothingMore(lines: seq<string>)
    ensures lines + [] == lines
  {
  }
}
