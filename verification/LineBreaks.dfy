/** The three key readers look at the lines of a file and not at how they end. */
module LineBreaks {
  import opened Bytes
  import opened Base64
  import opened KeyText
  import opened Keys
  import New = OpensshNew
  import Pem = OpensshPem
  import Com = SshCom

  // Lines and their ends.

  /** What may stand before a newline without changing the line: a carriage return, or a NUL and anything else. */
  predicate IsEnding(e: string) {
    e == "" || e == "\r" || (e[0] == '\0' && '\n' !in e)
  }

  function TextWith(ls: seq<string>, ends: seq<string>): string
    requires |ls| == |ends|
  {
    if ls == [] then "" else ls[0] + ends[0] + "\n" + TextWith(ls[1..], ends[1..])
  }

  lemma NextLineWithEnding(line: string, e: string, tail: string)
    requires Clean(line) && IsEnding(e)
    ensures NextLine(line + e + "\n" + tail) == (line, tail)
  {
    ChompedWithEnding(line, e, tail);
    CutEnding(line, e);
    hide ChompedLine, CString, WithoutReturn;
  }

  function WithoutReturn(s: string): string {
    if s != "" && s[|s| - 1] == '\r' then s[..|s| - 1] else s
  }

  lemma ChompedWithEnding(line: string, e: string, tail: string)
    requires '\n' !in line + e
    ensures ChompedLine(line + e + "\n" + tail) == (WithoutReturn(line + e), tail)
  {
    var s := line + e;
    var t := s + "\n" + tail;
    FindIs(t, '\n', |s|);
    assert t[|s| + 1..] == tail && t[..|s|] == s;
    if s != "" {
      assert t[|s| - 1] == s[|s| - 1] && t[..|s| - 1] == s[..|s| - 1];
    }
  }

  lemma CutEnding(line: string, e: string)
    requires Clean(line) && IsEnding(e)
    ensures CString(WithoutReturn(line + e)) == line && '\n' !in line + e
  {
    var s := line + e;
    var r := WithoutReturn(s);
    if e == "" {
      assert s == line && r == line;
    } else if e == "\r" {
      assert s[..|s| - 1] == line;
    }
    assert r[..|line|] == line;
    FindIs(r, '\0', |line|);
  }

  lemma {:induction false} LinesOfText(ls: seq<string>, ends: seq<string>)
    requires |ls| == |ends|
    requires forall i :: 0 <= i < |ls| ==> Clean(ls[i]) && IsEnding(ends[i])
    ensures LinesOf(TextWith(ls, ends)) == ls
    decreases |ls|
  {
    if ls != [] {
      var tail := TextWith(ls[1..], ends[1..]);
      assert TextWith(ls, ends) == ls[0] + ends[0] + "\n" + tail;
      hide NextLine, Clean, IsEnding;
      NextLineWithEnding(ls[0], ends[0], tail);
      LinesOfText(ls[1..], ends[1..]);
    }
  }

  // Texts with the same lines.

  ghost predicate SameLines(t: string, u: string) {
    LinesOf(t) == LinesOf(u)
  }

  lemma SameNext(t: string, u: string)
    requires SameLines(t, u)
    ensures t == "" <==> u == ""
    ensures NextLine(t).0 == NextLine(u).0 && SameLines(NextLine(t).1, NextLine(u).1)
  {
    hide NextLine;
    if t != "" && u != "" {
      assert LinesOf(t)[0] == NextLine(t).0 && LinesOf(u)[0] == NextLine(u).0;
      assert LinesOf(t)[1..] == LinesOf(NextLine(t).1) && LinesOf(u)[1..] == LinesOf(NextLine(u).1);
    }
  }

  lemma {:induction false} NewSame(body: Body, t: string, u: string)
    requires body.Valid() && SameLines(t, u)
    ensures New.Lines(body, t) == New.Lines(body, u)
    decreases |t|
  {
    hide NextLine, SameLines, Feed;
    SameNext(t, u);
    if t != "" {
      var line := NextLine(t).0;
      if line != New.END && Feed(body, line).Some? {
        NewSame(Feed(body, line).value, NextLine(t).1, NextLine(u).1);
      }
    }
  }

  lemma {:induction false} PemSame(st: Pem.Loaded, t: string, u: string)
    requires st.Valid() && SameLines(t, u)
    ensures Pem.Lines(st, t) == Pem.Lines(st, u)
    decreases |t|
  {
    hide NextLine, SameLines, Pem.Line, Pem.IsEnd;
    SameNext(t, u);
    if t != "" {
      var line := NextLine(t).0;
      if !Pem.IsEnd(line) && Pem.Line(st, line).Success? {
        PemSame(Pem.Line(st, line).value, NextLine(t).1, NextLine(u).1);
      }
    }
  }

  lemma {:induction false} UnfoldSame(line: string, t: string, u: string)
    requires SameLines(t, u)
    ensures var (a, b) := (Com.Unfold(line, t), Com.Unfold(line, u)); a.0 == b.0 && SameLines(a.1, b.1)
    decreases |t|, |line|
  {
    hide NextLine, SameLines;
    if Com.Continues(line) {
      SameNext(t, u);
      EmptyNext();
      UnfoldSame(line[..|line| - 1] + NextLine(t).0, NextLine(t).1, NextLine(u).1);
    }
  }

  lemma EmptyNext()
    ensures NextLine("") == ("", "")
  {
  }

  lemma TurnSame(st: Com.Loaded, line: string, t: string, u: string)
    requires st.Valid() && SameLines(t, u)
    ensures var (a, b) := (Com.Turn(st, line, t), Com.Turn(st, line, u));
            if a.Failure? then b == a
            else b.Success? && a.value.0 == b.value.0 && SameLines(a.value.1, b.value.1)
  {
    UnfoldSame(line, t, u);
    hide Com.Unfold, SameLines, Feed, Com.HeaderField;
  }

  lemma {:induction false} ComSame(st: Com.Loaded, t: string, u: string)
    requires st.Valid() && SameLines(t, u)
    ensures Com.Lines(st, t) == Com.Lines(st, u)
    decreases |t|
  {
    hide NextLine, SameLines, Com.Turn;
    SameNext(t, u);
    if t != "" {
      var line := NextLine(t).0;
      TurnSame(st, line, NextLine(t).1, NextLine(u).1);
      var turn := Com.Turn(st, line, NextLine(t).1);
      if line != Com.END && turn.Success? {
        ComSame(turn.value.0, turn.value.1, Com.Turn(st, line, NextLine(u).1).value.1);
      }
    }
  }

  /** Texts with the same lines are the same to all three. */
  lemma SameLinesSameAnswer(suite: Suite, reg: New.Registry, t: string, u: string, passphrase: seq<Byte>)
    requires SameLines(t, u)
    ensures New.Read(suite, reg, t, passphrase) == New.Read(suite, reg, u, passphrase)
    ensures Pem.Read(suite, t, passphrase) == Pem.Read(suite, u, passphrase)
    ensures Com.Read(suite, t, passphrase) == Com.Read(suite, u, passphrase)
  {
    assert Body("", []).Valid() && Pem.Start().Valid() && Com.Start().Valid();
    hide *;
    SameNext(t, u);
    NewSame(Body("", []), NextLine(t).1, NextLine(u).1);
    PemSame(Pem.Start(), NextLine(t).1, NextLine(u).1);
    ComSame(Com.Start(), NextLine(t).1, NextLine(u).1);
    LoadsAreEqual(t, u);
    NewReadSame(suite, reg, t, u, passphrase);
    PemReadSame(suite, t, u, passphrase);
    ComReadSame(suite, t, u, passphrase);
  }

  lemma NewReadSame(suite: Suite, reg: New.Registry, t: string, u: string, passphrase: seq<Byte>)
    requires New.Load(t) == New.Load(u)
    ensures New.Read(suite, reg, t, passphrase) == New.Read(suite, reg, u, passphrase)
  {
    hide New.Load, New.Decrypt, New.ParsePrivate, CString;
  }

  lemma PemReadSame(suite: Suite, t: string, u: string, passphrase: seq<Byte>)
    requires Pem.Load(t) == Pem.Load(u)
    ensures Pem.Read(suite, t, passphrase) == Pem.Read(suite, u, passphrase)
  {
    hide Pem.Load, Pem.Decrypt, Pem.ReadSequence;
  }

  lemma ComReadSame(suite: Suite, t: string, u: string, passphrase: seq<Byte>)
    requires Com.Load(t) == Com.Load(u)
    ensures Com.Read(suite, t, passphrase) == Com.Read(suite, u, passphrase)
  {
    hide Com.Load, Com.ReadBlob, Com.ReadFields;
  }

  lemma LoadsAreEqual(t: string, u: string)
    requires NextLine(t).0 == NextLine(u).0
    requires New.Lines(Body("", []), NextLine(t).1) == New.Lines(Body("", []), NextLine(u).1)
    requires Pem.Lines(Pem.Start(), NextLine(t).1) == Pem.Lines(Pem.Start(), NextLine(u).1)
    requires Com.Lines(Com.Start(), NextLine(t).1) == Com.Lines(Com.Start(), NextLine(u).1)
    ensures New.Load(t) == New.Load(u) && Pem.Load(t) == Pem.Load(u) && Com.Load(t) == Com.Load(u)
  {
    hide NextLine, New.Lines, Pem.Lines, Com.Lines, New.ParseContainer, Pem.ParseBegin;
  }

  /** So a file may end its lines with newlines or with carriage returns and newlines, or have a NUL and more in them. */
  lemma LineEndsDoNotMatter(suite: Suite, reg: New.Registry, ls: seq<string>, ends: seq<string>, ends': seq<string>,
                            passphrase: seq<Byte>)
    requires |ls| == |ends| == |ends'| && forall i :: 0 <= i < |ls| ==> Clean(ls[i])
    requires forall i :: 0 <= i < |ls| ==> IsEnding(ends[i]) && IsEnding(ends'[i])
    ensures var t, u := TextWith(ls, ends), TextWith(ls, ends');
            && New.Read(suite, reg, t, passphrase) == New.Read(suite, reg, u, passphrase)
            && Pem.Read(suite, t, passphrase) == Pem.Read(suite, u, passphrase)
            && Com.Read(suite, t, passphrase) == Com.Read(suite, u, passphrase)
  {
    hide New.Read, Pem.Read, Com.Read, TextWith, LinesOf, Clean, IsEnding;
    LinesOfText(ls, ends);
    LinesOfText(ls, ends');
    SameLinesSameAnswer(suite, reg, TextWith(ls, ends), TextWith(ls, ends'), passphrase);
  }
}
