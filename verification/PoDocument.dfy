/** A .po file as the sequence of its entries and of the lines between them, and what the merge does to it. */
module PoDocument {
  import opened Bytes
  import opened PoFile
  import opened PoMerge

  /** A line between entries, or an entry. The line that ends an entry is not kept. */
  datatype Item = Line(text: string) | Pair(msgid: string, msgstr: string)

  function Document(lines: seq<string>): seq<Item>
    decreases |lines|
  {
    if lines == [] then []
    else if Skipped(Trim(lines[0])) then [Line(lines[0])] + Document(lines[1..])
    else
      var e := EntryAt(lines, false);
      if e.Failure? then []
      else
        BeyondShrinks(e.value.rest);
        [Pair(e.value.msgid, e.value.msgstr)] + Document(Beyond(e.value.rest))
  }

  /** What should become of an item: `header` says that no message has come yet, only at most the header entry. */
  function EditItem(it: Item, update: map<string, string>, header: bool): Item {
    match it
    case Line(text) => Line(if header && Trim(text) == "#, fuzzy" then "" else text)
    case Pair(msgid, msgstr) =>
      Pair(msgid, if msgid != "" && msgid in update && update[msgid] != "" then update[msgid] else msgstr)
  }

  predicate IsMessage(it: Item) {
    it.Pair? && it.msgid != ""
  }

  function Edit(d: seq<Item>, update: map<string, string>, header: bool): (r: seq<Item>)
    ensures |r| == |d|
    decreases |d|
  {
    if d == [] then []
    else [EditItem(d[0], update, header)] + Edit(d[1..], update, header && !IsMessage(d[0]))
  }

  function PrintItem(it: Item): seq<string> {
    match it
    case Line(text) => [text]
    case Pair(msgid, msgstr) => SplitLines("msgid \"" + msgid + "\"") + SplitLines("msgstr \"" + msgstr + "\"" + "\n")
  }

  function Print(d: seq<Item>): seq<string> {
    if d == [] then [] else PrintItem(d[0]) + Print(d[1..])
  }

  // The output is the edited document, printed.

  lemma DocumentSkips(line: string, tail: seq<string>)
    requires Skipped(Trim(line))
    ensures Document([line] + tail) == [Line(line)] + Document(tail)
  {
    hide Trim, Skipped, EntryAt;
    assert ([line] + tail)[1..] == tail;
  }

  lemma DocumentOfEntry(lines: seq<string>)
    requires lines != [] && !Skipped(Trim(lines[0])) && EntryAt(lines, true).Success?
    ensures var e := EntryAt(lines, true).value;
            |Beyond(e.rest)| < |lines| && Document(lines) == [Pair(e.msgid, e.msgstr)] + Document(Beyond(e.rest))
  {
    EntryAgrees(lines);
    hide Trim, Skipped, EntryAt;
    BeyondShrinks(EntryAt(lines, true).value.rest);
  }

  lemma DocumentOfWritten(msgid: string, first: string, parts: seq<string>, tail: seq<string>)
    requires Printable(msgid, first, parts)
    ensures Document(Written(msgid, Join(first, parts)) + tail) == [Pair(msgid, Join(first, parts))] + Document(tail)
  {
    hide EntryAt, Written, Join, Trim, Skipped;
    EntryOfWritten(msgid, first, parts, tail, false);
    assert Beyond([""] + tail) == tail;
  }

  lemma EditFirst(it: Item, d: seq<Item>, update: map<string, string>, header: bool)
    ensures Edit([it] + d, update, header) == [EditItem(it, update, header)] + Edit(d, update, header && !IsMessage(it))
  {
    assert ([it] + d)[1..] == d;
  }

  lemma PrintFirst(it: Item, d: seq<Item>)
    ensures Print([it] + d) == PrintItem(it) + Print(d)
  {
    assert ([it] + d)[1..] == d;
  }

  lemma EditedLine(line: string, update: map<string, string>, header: bool)
    ensures EditItem(Line(line), update, header) == Line(Copied(line, header))
    ensures PrintItem(Line(Copied(line, header))) == [Copied(line, header)]
    ensures !IsMessage(Line(line))
  {
    hide Trim;
  }

  lemma EditedPair(msgid: string, msgstr: string, update: map<string, string>, header: bool)
    ensures EditItem(Pair(msgid, msgstr), update, header) == Pair(msgid, Replacement(msgid, msgstr, update))
    ensures PrintItem(Pair(msgid, Replacement(msgid, msgstr, update))) == Written(msgid, Replacement(msgid, msgstr, update))
    ensures (header && !IsMessage(Pair(msgid, msgstr))) == (header && msgid == "")
  {
    hide SplitLines;
  }

  /**
   * The merge writes the old document with its translations replaced and the fuzzy mark of the header
   * blanked, and what it writes reads back as that document: every other line stays, in its place.
   */
  lemma {:induction false} MergeIsEdit(lines: seq<string>, update: map<string, string>, header: bool)
    requires AreLines(lines) && CleanUpdates(update) && Merge(lines, update, header).Success?
    ensures var out := Merge(lines, update, header).value.out;
            && out == Print(Edit(Document(lines), update, header))
            && Document(out) == Edit(Document(lines), update, header)
    decreases |lines|, 1
  {
    if lines == [] {
      assert Merge(lines, update, header).value.out == [] && Document([]) == [] && Print([]) == [];
    } else {
      hide *;
      if Skipped(Trim(lines[0])) {
        SkippedIsEdited(lines, update, header);
      } else {
        EntryIsEdited(lines, update, header);
      }
    }
  }

  lemma SkippedIsEdited(lines: seq<string>, update: map<string, string>, header: bool)
    requires lines != [] && Skipped(Trim(lines[0]))
    requires AreLines(lines) && CleanUpdates(update) && Merge(lines, update, header).Success?
    ensures var out := Merge(lines, update, header).value.out;
            && out == Print(Edit(Document(lines), update, header))
            && Document(out) == Edit(Document(lines), update, header)
    decreases |lines|, 0
  {
    hide *;
    var line, tail := lines[0], lines[1..];
    LinesOfRest(lines);
    assert lines == [line] + tail;
    var rest := Merge(tail, update, header);
    MergeSkips(line, tail, update, header);
    ThenSkipped(Copied(line, header), rest);
    MergeIsEdit(tail, update, header);
    CopiedIsSkipped(line, header);
    EditedLine(line, update, header);
    DocumentSkips(line, tail);
    EditFirst(Line(line), Document(tail), update, header);
    PrintFirst(Line(Copied(line, header)), Edit(Document(tail), update, header));
    DocumentSkips(Copied(line, header), rest.value.out);
  }

  lemma EntryIsEdited(lines: seq<string>, update: map<string, string>, header: bool)
    requires lines != [] && !Skipped(Trim(lines[0]))
    requires AreLines(lines) && CleanUpdates(update) && Merge(lines, update, header).Success?
    ensures var out := Merge(lines, update, header).value.out;
            && out == Print(Edit(Document(lines), update, header))
            && Document(out) == Edit(Document(lines), update, header)
    decreases |lines|, 0
  {
    hide *;
    MergeStep(lines, update, header);
    RestAreLines(lines);
    var e := EntryAt(lines, true).value;
    var first, parts := ReplacementParts(lines, update);
    var later := header && e.msgid == "";
    var tail := Beyond(e.rest);
    var more := Merge(tail, update, later).value;
    DocumentOfEntry(lines);
    MergeIsEdit(tail, update, later);
    MergeEntryIsWritten(e.msgid, e.msgstr, update, more);
    EditedPair(e.msgid, e.msgstr, update, header);
    EditFirst(Pair(e.msgid, e.msgstr), Document(tail), update, header);
    PrintFirst(Pair(e.msgid, Replacement(e.msgid, e.msgstr, update)), Edit(Document(tail), update, later));
    DocumentOfWritten(e.msgid, first, parts, more.out);
  }

  // The counts.

  function Messages(d: seq<Item>): nat {
    if d == [] then 0 else (if IsMessage(d[0]) then 1 else 0) + Messages(d[1..])
  }

  /** Messages without a translation. */
  function Empty(d: seq<Item>): nat {
    if d == [] then 0 else (if IsMessage(d[0]) && d[0].msgstr == "" then 1 else 0) + Empty(d[1..])
  }

  /** Entries that differ. */
  function Changed(d: seq<Item>, d': seq<Item>): nat
    requires |d| == |d'|
  {
    if d == [] then 0 else (if d[0].Pair? && d[0] != d'[0] then 1 else 0) + Changed(d[1..], d'[1..])
  }

  ghost predicate CountsAre(run: Run, d: seq<Item>, d': seq<Item>)
    requires |d| == |d'|
  {
    && run.total == Messages(d) && run.updated == Changed(d, d')
    && run.untranslated == Empty(d') && run.translated + Empty(d') == Messages(d')
  }

  lemma CountsOfLine(line: string, text: string, d: seq<Item>, d': seq<Item>, run: Run, out: seq<string>)
    requires |d| == |d'| && CountsAre(run, d, d')
    ensures CountsAre(run.(out := out), [Line(line)] + d, [Line(text)] + d')
  {
    assert ([Line(line)] + d)[1..] == d && ([Line(text)] + d')[1..] == d';
  }

  lemma CountsOfPair(msgid: string, msgstr: string, update: map<string, string>, d: seq<Item>, d': seq<Item>, more: Run)
    requires |d| == |d'| && CountsAre(more, d, d')
    ensures CountsAre(MergeEntry(msgid, msgstr, update).Plus(more),
                      [Pair(msgid, msgstr)] + d, [Pair(msgid, Replacement(msgid, msgstr, update))] + d')
  {
    hide Written, Replacement;
    var v := Replacement(msgid, msgstr, update);
    assert msgid == "" ==> v == msgstr by {
      HeaderIsKept(msgstr, update);
    }
    assert ([Pair(msgid, msgstr)] + d)[1..] == d && ([Pair(msgid, v)] + d')[1..] == d';
  }

  lemma HeaderIsKept(msgstr: string, update: map<string, string>)
    ensures Replacement("", msgstr, update) == msgstr
  {
  }

  lemma {:induction false} MergeCountsEdit(lines: seq<string>, update: map<string, string>, header: bool)
    requires AreLines(lines) && Merge(lines, update, header).Success?
    ensures CountsAre(Merge(lines, update, header).value, Document(lines), Edit(Document(lines), update, header))
    decreases |lines|
  {
    if lines == [] {
      assert Document([]) == [] && Merge(lines, update, header).value == NOTHING;
    } else {
      hide *;
      if Skipped(Trim(lines[0])) {
        var line, tail := lines[0], lines[1..];
        LinesOfRest(lines);
        assert lines == [line] + tail;
        MergeSkips(line, tail, update, header);
        ThenSkipped(Copied(line, header), Merge(tail, update, header));
        MergeCountsEdit(tail, update, header);
        DocumentSkips(line, tail);
        EditedLine(line, update, header);
        EditFirst(Line(line), Document(tail), update, header);
        CountsOfLine(line, Copied(line, header), Document(tail), Edit(Document(tail), update, header),
                     Merge(tail, update, header).value, Merge(lines, update, header).value.out);
      } else {
        MergeStep(lines, update, header);
        RestAreLines(lines);
        var e := EntryAt(lines, true).value;
        var later := header && e.msgid == "";
        var tail := Beyond(e.rest);
        DocumentOfEntry(lines);
        MergeCountsEdit(tail, update, later);
        EditedPair(e.msgid, e.msgstr, update, header);
        EditFirst(Pair(e.msgid, e.msgstr), Document(tail), update, header);
        CountsOfPair(e.msgid, e.msgstr, update, Document(tail), Edit(Document(tail), update, later),
                     Merge(tail, update, later).value);
      }
    }
  }

  /**
   * What the merge reports: the messages there are, those whose translation in the output is empty, the
   * others, and those whose translation in the output is not the old one.
   */
  lemma CountsAreRight(lines: seq<string>, update: map<string, string>, header: bool)
    requires AreLines(lines) && CleanUpdates(update) && Merge(lines, update, header).Success?
    ensures var run := Merge(lines, update, header).value;
            |Document(lines)| == |Document(run.out)| && CountsAre(run, Document(lines), Document(run.out))
  {
    hide *;
    MergeIsEdit(lines, update, header);
    MergeCountsEdit(lines, update, header);
  }
}
