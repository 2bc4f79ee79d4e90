/** The shape of a .po file, as both parsers of the merge tool see it. */
module PoFile {
  import opened Bytes

  /** What StreamReader.ReadLine returns: a line without its line break. */
  predicate IsLine(line: string) {
    '\n' !in line && '\r' !in line
  }

  ghost predicate AreLines(lines: seq<string>) {
    forall i :: 0 <= i < |lines| ==> IsLine(lines[i])
  }

  /** Char.IsWhiteSpace. */
  predicate IsWhite(c: char) {
    var v := c as int;
    9 <= v <= 13 || v == 32 || v == 0x85 || v == 0xA0 || v == 0x1680 || 0x2000 <= v <= 0x200A
    || v == 0x2028 || v == 0x2029 || v == 0x202F || v == 0x205F || v == 0x3000
  }

  function TrimStart(s: string): (r: string)
    ensures |r| <= |s|
  {
    if s != "" && IsWhite(s[0]) then TrimStart(s[1..]) else s
  }

  function TrimEnd(s: string): (r: string)
    ensures |r| <= |s|
  {
    if s != "" && IsWhite(s[|s| - 1]) then TrimEnd(s[..|s| - 1]) else s
  }

  function Trim(s: string): string {
    TrimEnd(TrimStart(s))
  }

  lemma {:induction false} TrimStartIsSuffix(s: string)
    ensures TrimStart(s) == s[|s| - |TrimStart(s)|..]
  {
    if s != "" && IsWhite(s[0]) {
      TrimStartIsSuffix(s[1..]);
    }
  }

  lemma {:induction false} TrimEndIsPrefix(s: string)
    ensures TrimEnd(s) <= s
  {
    if s != "" && IsWhite(s[|s| - 1]) {
      TrimEndIsPrefix(s[..|s| - 1]);
    }
  }

  lemma TrimKeepsLine(s: string)
    requires IsLine(s)
    ensures IsLine(Trim(s))
  {
    TrimStartIsSuffix(s);
    TrimEndIsPrefix(TrimStart(s));
  }

  /** A line with a visible first character keeps it. */
  lemma TrimFirst(s: string)
    requires s != "" && !IsWhite(s[0])
    ensures Trim(s) != "" && Trim(s)[0] == s[0]
  {
    TrimEndFirst(s);
  }

  lemma {:induction false} TrimEndFirst(s: string)
    requires s != "" && !IsWhite(s[0])
    ensures TrimEnd(s) != "" && TrimEnd(s)[0] == s[0]
  {
    if IsWhite(s[|s| - 1]) {
      TrimEndFirst(s[..|s| - 1]);
    }
  }

  lemma TrimEmpty()
    ensures Trim("") == ""
  {
  }

  /** The lines that WriteLine(s) adds to a file. */
  function SplitLines(s: string): (lines: seq<string>)
    ensures lines != []
  {
    if s == "" then [""]
    else if s[0] == '\n' then [""] + SplitLines(s[1..])
    else
      var rest := SplitLines(s[1..]);
      [[s[0]] + rest[0]] + rest[1..]
  }

  lemma {:induction false} SplitAtNewline(a: string, b: string)
    requires '\n' !in a
    ensures SplitLines(a + "\n" + b) == [a] + SplitLines(b)
  {
    if a == "" {
      assert a + "\n" + b == "\n" + b && ("\n" + b)[1..] == b;
    } else {
      SplitAtNewline(a[1..], b);
      assert (a + "\n" + b)[1..] == a[1..] + "\n" + b;
      assert [a[0]] + a[1..] == a;
    }
  }

  lemma {:induction false} SplitOneLine(a: string)
    requires '\n' !in a
    ensures SplitLines(a) == [a]
  {
    if a != "" {
      SplitOneLine(a[1..]);
      assert [a[0]] + a[1..] == a;
    }
  }

  const MSGID := "msgid \""
  const MSGSTR := "msgstr \""
  const QUOTE := "\""

  /** What joins the lines of a header's msgstr, so that they are written apart again. */
  const NEXT_LINE := "\"\n\""

  datatype ParseError = BeforeMsgid | InMsgid | AfterMsgid | AfterMsgstr | LoneQuote

  /** Not the start of an entry: short, or a comment. */
  predicate Skipped(t: string) {
    |t| < 8 || t[0] == '#'
  }

  /** The keyword and an opening quote, and a quote at the end. */
  predicate Quotes(keyword: string, t: string) {
    keyword <= t && t != "" && t[|t| - 1] == '\"'
  }

  function Inner(keyword: string, t: string): string {
    if |t| <= |keyword| + 1 then "" else t[|keyword|..|t| - 1]
  }

  datatype Gathered = Gathered(text: string, rest: seq<string>)

  /** Is the line a continuation? UpdateTranslation looks at an msgid line before it is trimmed. */
  predicate Continues(line: string, strict: bool) {
    Trim(line) != "" && line != "" && (if strict then line[0] else Trim(line)[0]) == '\"'
  }

  /** Continuation lines, each without its first and last character, added to `text`. */
  function Gather(lines: seq<string>, strict: bool, glue: string, text: string): Result<Gathered, ParseError>
    decreases |lines|
  {
    if lines == [] || !Continues(lines[0], strict) then Success(Gathered(text, lines))
    else
      var t := Trim(lines[0]);
      if |t| == 1 then Failure(LoneQuote)
      else Gather(lines[1..], strict, glue, text + glue + t[1..|t| - 1])
  }

  lemma {:induction false} GatherShrinks(lines: seq<string>, strict: bool, glue: string, text: string)
    ensures var g := Gather(lines, strict, glue, text);
            g.Success? ==> |g.value.rest| <= |lines| && g.value.rest == lines[|lines| - |g.value.rest|..]
    decreases |lines|
  {
    if lines != [] && Continues(lines[0], strict) && |Trim(lines[0])| != 1 {
      var t := Trim(lines[0]);
      GatherShrinks(lines[1..], strict, glue, text + glue + t[1..|t| - 1]);
    }
  }

  datatype Entry = Entry(msgid: string, msgstr: string, rest: seq<string>)

  function Glue(msgid: string): string {
    if msgid == "" then NEXT_LINE else ""
  }

  /** The entry that starts at the first line; `rest` begins with the line that ended it. */
  function EntryAt(lines: seq<string>, strict: bool): (e: Result<Entry, ParseError>)
    requires lines != []
    ensures e.Success? ==> |e.value.rest| < |lines|
  {
    var t := Trim(lines[0]);
    if !Quotes(MSGID, t) then Failure(BeforeMsgid)
    else
      var id := Gather(lines[1..], strict, "", Inner(MSGID, t));
      if id.Failure? then Failure(id.error)
      else if id.value.rest == [] then Failure(InMsgid)
      else
        var s := Trim(id.value.rest[0]);
        if !Quotes(MSGSTR, s) then Failure(AfterMsgid)
        else
          var msg := Gather(id.value.rest[1..], false, Glue(id.value.text), Inner(MSGSTR, s));
          if msg.Failure? then Failure(msg.error)
          else
            GatherShrinks(lines[1..], strict, "", Inner(MSGID, t));
            GatherShrinks(id.value.rest[1..], false, Glue(id.value.text), Inner(MSGSTR, s));
            Success(Entry(id.value.text, msg.value.text, msg.value.rest))
  }

  /** An entry must end with the file, a blank line or a comment. */
  predicate Ends(line: string, strict: bool) {
    var t := if strict then line else Trim(line);
    t == "" || t[0] == '#'
  }

  /** ParseTranslation, from some line on. */
  function Parse(lines: seq<string>, msg: map<string, string>): Result<map<string, string>, ParseError>
    decreases |lines|
  {
    if lines == [] then Success(msg)
    else if Skipped(Trim(lines[0])) then Parse(lines[1..], msg)
    else
      var e := EntryAt(lines, false);
      if e.Failure? then Failure(e.error)
      else
        var now := msg[e.value.msgid := e.value.msgstr];
        var rest := e.value.rest;
        if rest == [] then Success(now)
        else if !Ends(rest[0], false) then Failure(AfterMsgstr)
        else Parse(rest[1..], now)
  }

  /** What UpdateTranslation writes and counts. */
  datatype Run = Run(out: seq<string>, total: nat, translated: nat, updated: nat, untranslated: nat) {
    function Plus(r: Run): Run {
      Run(out + r.out, total + r.total, translated + r.translated, updated + r.updated, untranslated + r.untranslated)
    }

    function Then(more: Result<Run, ParseError>): Result<Run, ParseError> {
      if more.Failure? then more else Success(Plus(more.value))
    }
  }

  const NOTHING := Run([], 0, 0, 0, 0)

  /** The new translation: never of the header, and only from an update that is not empty. */
  function Replacement(msgid: string, msgstr: string, update: map<string, string>): string {
    if msgid != "" && msgid in update && update[msgid] != "" then update[msgid] else msgstr
  }

  function Written(msgid: string, msgstr: string): seq<string> {
    SplitLines(MSGID + msgid + QUOTE) + SplitLines(MSGSTR + msgstr + QUOTE + "\n")
  }

  function MergeEntry(msgid: string, msgstr: string, update: map<string, string>): Run {
    var v := Replacement(msgid, msgstr, update);
    if msgid == "" then Run(Written(msgid, v), 0, 0, 0, 0)
    else Run(Written(msgid, v), 1, if v == "" then 0 else 1, if v == msgstr then 0 else 1, if v == "" then 1 else 0)
  }

  const FUZZY := "#, fuzzy"

  /** A line between entries is copied; the fuzzy mark of the header is blanked. */
  function Copied(line: string, beforeFirst: bool): string {
    if beforeFirst && Trim(line) == FUZZY then "" else line
  }

  /** UpdateTranslation, from some line on. */
  function Merge(lines: seq<string>, update: map<string, string>, beforeFirst: bool): Result<Run, ParseError>
    decreases |lines|
  {
    if lines == [] then Success(NOTHING)
    else if Skipped(Trim(lines[0])) then
      Run(SplitLines(Copied(lines[0], beforeFirst)), 0, 0, 0, 0).Then(Merge(lines[1..], update, beforeFirst))
    else
      var e := EntryAt(lines, true);
      if e.Failure? then Failure(e.error)
      else
        var now := MergeEntry(e.value.msgid, e.value.msgstr, update);
        var rest := e.value.rest;
        if rest == [] then Success(now)
        else if !Ends(rest[0], true) then Failure(AfterMsgstr)
        else now.Then(Merge(rest[1..], update, beforeFirst && e.value.msgid == ""))
  }
}
