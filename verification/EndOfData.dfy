/**
 * When the three loaders come to an answer. bsgetline never reports the end of the data, so a
 * loader's loop ends at an END line or at a line that it refuses, and at no other place.
 */
module EndOfData {
  import opened Bytes
  import opened Base64
  import opened KeyText
  import opened Keys
  import Pem = OpensshPem
  import New = OpensshNew
  import Com = SshCom
  import PemRoundTrip = OpensshPemRoundTrip

  // What the lines hold.

  function Base64Prefix(line: string): (p: string)
    ensures AllBase64(p)
  {
    if line == "" || !IsBase64(line[0]) then "" else [line[0]] + Base64Prefix(line[1..])
  }

  /** The base64 characters of some lines. */
  function Chars(ls: seq<string>): string {
    if ls == [] then "" else Base64Prefix(ls[0]) + Chars(ls[1..])
  }

  /** Cut into fours, the characters have an atom that does not decode. */
  predicate BadAtom(s: string) {
    |s| >= 4 && (DecodeAtom(s[..4]).None? || BadAtom(s[4..]))
  }

  predicate IsHeader(line: string) {
    ':' in line
  }

  predicate HasHeader(ls: seq<string>) {
    exists l :: l in ls && IsHeader(l)
  }

  /** A header line comes after a line that is none. */
  predicate HeaderAfterBody(ls: seq<string>) {
    ls != [] && ((!IsHeader(ls[0]) && HasHeader(ls[1..])) || HeaderAfterBody(ls[1..]))
  }

  function BodyLines(ls: seq<string>): seq<string> {
    if ls == [] then [] else (if IsHeader(ls[0]) then [] else [ls[0]]) + BodyLines(ls[1..])
  }

  // What the carry does with them.

  lemma {:induction false} FeedIsOfPrefix(b: Body, line: string)
    requires b.Valid()
    ensures Feed(b, line) == Feed(b, Base64Prefix(line))
    decreases |line|
  {
    if line != "" && IsBase64(line[0]) {
      var bit := b.bit + [line[0]];
      if |bit| < 4 {
        FeedIsOfPrefix(Body(bit, b.blob), line[1..]);
      } else if DecodeAtom(bit).Some? {
        FeedIsOfPrefix(Body("", b.blob + DecodeAtom(bit).value), line[1..]);
      }
    }
  }

  /** A carry and the characters that follow it have a bad atom; what this says of the carry after some of them. */
  lemma {:induction false} FeedFindsBadAtom(b: Body, s: string, later: string)
    requires b.Valid() && AllBase64(s)
    ensures BadAtom(b.bit + (s + later)) == match Feed(b, s)
                                            case None => true
                                            case Some(c) => BadAtom(c.bit + later)
    decreases |s|
  {
    if s == "" {
      assert s + later == later;
    } else {
      var bit := b.bit + [s[0]];
      assert b.bit + (s + later) == bit + (s[1..] + later);
      if |bit| < 4 {
        FeedFindsBadAtom(Body(bit, b.blob), s[1..], later);
      } else {
        var all := bit + (s[1..] + later);
        assert all[..4] == bit && all[4..] == "" + (s[1..] + later);
        if DecodeAtom(bit).Some? {
          FeedFindsBadAtom(Body("", b.blob + DecodeAtom(bit).value), s[1..], later);
        }
      }
    }
  }

  /** The same for one line in front of others. */
  lemma LineFindsBadAtom(b: Body, line: string, ls: seq<string>)
    requires b.Valid()
    ensures BadAtom(b.bit + Chars([line] + ls)) == match Feed(b, line)
                                                   case None => true
                                                   case Some(c) => BadAtom(c.bit + Chars(ls))
  {
    FeedIsOfPrefix(b, line);
    FeedFindsBadAtom(b, Base64Prefix(line), Chars(ls));
    assert ([line] + ls)[1..] == ls;
  }

  lemma CarryHasNoBadAtom(b: Body)
    requires b.Valid()
    ensures !BadAtom(b.bit + Chars([]))
  {
  }

  // The new format.

  /** The text has an END line, or a line that the loader refuses. */
  predicate NewAnswers(t: string) {
    var (line, rest) := NextLine(t);
    var ls := LinesOf(rest);
    line != New.BEGIN || New.END in ls || BadAtom(Chars(ls))
  }

  lemma {:induction false} NewLines(body: Body, t: string)
    requires body.Valid()
    ensures New.Lines(body, t) == Failure(NoAnswer)
       <==> New.END !in LinesOf(t) && !BadAtom(body.bit + Chars(LinesOf(t)))
    decreases |t|
  {
    if t == "" {
      CarryHasNoBadAtom(body);
    } else {
      var (line, rest) := NextLine(t);
      hide BadAtom, Chars, Feed, NextLine;
      LineFindsBadAtom(body, line, LinesOf(rest));
      if line != New.END && Feed(body, line).Some? {
        NewLines(Feed(body, line).value, rest);
      }
    }
  }

  lemma NewLoad(t: string)
    ensures New.LoadBlob(t) == Failure(NoAnswer) <==> !NewAnswers(t)
  {
    var rest := NextLine(t).1;
    hide NextLine, New.Lines, BadAtom, Chars;
    NewLines(Body("", []), rest);
    assert "" + Chars(LinesOf(rest)) == Chars(LinesOf(rest));
  }

  lemma NewTurns(t: string, n: nat)
    ensures New.LoadBlob(t) == Failure(NoAnswer) ==> New.LoadInTurns(t, n) == None
    ensures New.LoadBlob(t) != Failure(NoAnswer) && n > |t| ==> New.LoadInTurns(t, n) == Some(New.LoadBlob(t))
  {
    hide NextLine, New.Lines, New.LinesInTurns;
    New.TurnsOfLines(Body("", []), NextLine(t).1, n);
  }

  /**
   * The loader answers if and only if the text has an END line or a bad atom, and then within one
   * turn more than the text has characters; otherwise its loop runs for ever.
   */
  lemma NewAnswersIff(t: string)
    ensures NewAnswers(t) <==> New.LoadInTurns(t, |t| + 1).Some?
    ensures NewAnswers(t) ==> New.LoadInTurns(t, |t| + 1) == Some(New.LoadBlob(t))
    ensures !NewAnswers(t) ==> forall n: nat :: New.LoadInTurns(t, n) == None
    ensures !NewAnswers(t) <==> New.LoadBlob(t) == Failure(NoAnswer)
  {
    hide *;
    NewLoad(t);
    NewTurns(t, |t| + 1);
    forall n: nat
      ensures !NewAnswers(t) ==> New.LoadInTurns(t, n) == None
    {
      NewTurns(t, n);
    }
  }

  // The old PEM format.

  /** A header line that the loader refuses wherever it stands. */
  predicate IsBadHeader(line: string) {
    IsHeader(line)
    && var colon := Find(line, ':');
       Pem.HeaderField(Pem.Start(), line[..colon], Pem.SkipSpaces(line[colon + 1..])).Failure?
  }

  predicate HasEnd(ls: seq<string>) {
    exists l :: l in ls && Pem.IsEnd(l)
  }

  predicate HasBadHeader(ls: seq<string>) {
    exists l :: l in ls && IsBadHeader(l)
  }

  predicate PemAnswers(t: string) {
    var (line, rest) := NextLine(t);
    var ls := LinesOf(rest);
    Pem.ParseBegin(line).Failure? || HasEnd(ls) || HasBadHeader(ls) || HeaderAfterBody(ls) || BadAtom(Chars(BodyLines(ls)))
  }

  /** Some line is refused, when the loader has come so far. */
  predicate PemRefuses(done: bool, bit: string, ls: seq<string>) {
    HasBadHeader(ls) || HeaderAfterBody(ls) || (done && HasHeader(ls)) || BadAtom(bit + Chars(BodyLines(ls)))
  }

  /** Whether a header is refused does not depend on what has been loaded. */
  lemma BadHeaderIsRefused(st: Pem.Loaded, line: string)
    requires st.Valid() && IsHeader(line) && !st.headersDone
    ensures IsBadHeader(line) <==> Pem.Line(st, line).Failure?
    ensures Pem.Line(st, line).Success? ==> var next := Pem.Line(st, line).value; next.body == st.body && !next.headersDone
  {
    hide ReadHex, Pem.SkipSpaces;
  }

  lemma PemHeaderTurn(st: Pem.Loaded, line: string, ls: seq<string>)
    requires st.Valid() && IsHeader(line)
    ensures PemRefuses(st.headersDone, st.body.bit, [line] + ls)
         == match Pem.Line(st, line)
            case Failure(_) => true
            case Success(next) => PemRefuses(next.headersDone, next.body.bit, ls)
  {
    var all := [line] + ls;
    assert all[0] == line && all[1..] == ls && line in all;
    hide IsBadHeader, Chars, BadAtom;
    assert BodyLines(all) == [] + BodyLines(ls) == BodyLines(ls);
    if st.headersDone {
      assert HasHeader(all);
    } else {
      BadHeaderIsRefused(st, line);
      hide Pem.Line;
    }
  }

  lemma PemBodyTurn(st: Pem.Loaded, line: string, ls: seq<string>)
    requires st.Valid() && !IsHeader(line)
    ensures PemRefuses(st.headersDone, st.body.bit, [line] + ls)
         == match Pem.Line(st, line)
            case Failure(_) => true
            case Success(next) => PemRefuses(next.headersDone, next.body.bit, ls)
  {
    var all := [line] + ls;
    assert all[0] == line && all[1..] == ls;
    hide Feed, Chars, BadAtom;
    assert BodyLines(all) == [line] + BodyLines(ls);
    LineFindsBadAtom(st.body, line, BodyLines(ls));
    assert Pem.Line(st, line) == match Feed(st.body, line)
                                 case None => Failure(BadBase64)
                                 case Some(body) => Success(st.(headersDone := true, body := body));
  }

  lemma {:induction false} PemLines(st: Pem.Loaded, t: string)
    requires st.Valid()
    ensures Pem.Lines(st, t) == Failure(NoAnswer)
       <==> !HasEnd(LinesOf(t)) && !PemRefuses(st.headersDone, st.body.bit, LinesOf(t))
    decreases |t|
  {
    if t == "" {
      CarryHasNoBadAtom(st.body);
    } else {
      var (line, rest) := NextLine(t);
      if IsHeader(line) {
        PemHeaderTurn(st, line, LinesOf(rest));
      } else {
        PemBodyTurn(st, line, LinesOf(rest));
      }
      Pem.LineAnswers(st, line);
      hide PemRefuses, Pem.Line, Pem.IsEnd, NextLine;
      if !Pem.IsEnd(line) && Pem.Line(st, line).Success? {
        PemLines(Pem.Line(st, line).value, rest);
      }
    }
  }

  lemma PemLoad(t: string)
    ensures Pem.Load(t) == Failure(NoAnswer) <==> !PemAnswers(t)
  {
    var (line, rest) := NextLine(t);
    assert Pem.ParseBegin(line) != Failure(NoAnswer);
    assert !Pem.Start().headersDone && Pem.Start().body.bit == "";
    hide NextLine, Pem.Lines, Pem.ParseBegin, Pem.Start;
    hide BadAtom, Chars, BodyLines, HasEnd, HasBadHeader, HeaderAfterBody, HasHeader;
    PemLines(Pem.Start(), rest);
    assert "" + Chars(BodyLines(LinesOf(rest))) == Chars(BodyLines(LinesOf(rest)));
  }

  lemma PemTurns(t: string, n: nat)
    ensures Pem.Load(t) == Failure(NoAnswer) ==> Pem.LoadInTurns(t, n) == None
    ensures Pem.Load(t) != Failure(NoAnswer) && n > |t| ==> Pem.LoadInTurns(t, n) == Some(Pem.Load(t))
  {
    assert Pem.ParseBegin(NextLine(t).0) != Failure(NoAnswer);
    hide NextLine, Pem.Lines, Pem.LinesInTurns, Pem.ParseBegin, Pem.Start;
    Pem.TurnsOfLines(Pem.Start(), NextLine(t).1, n);
  }

  /**
   * The loader answers if and only if the text has an END line, a bad header, a header after the
   * body has begun, or a bad atom.
   */
  lemma PemAnswersIff(t: string)
    ensures PemAnswers(t) <==> Pem.LoadInTurns(t, |t| + 1).Some?
    ensures PemAnswers(t) ==> Pem.LoadInTurns(t, |t| + 1) == Some(Pem.Load(t))
    ensures !PemAnswers(t) ==> forall n: nat :: Pem.LoadInTurns(t, n) == None
    ensures !PemAnswers(t) <==> Pem.Load(t) == Failure(NoAnswer)
  {
    hide *;
    PemLoad(t);
    PemTurns(t, |t| + 1);
    forall n: nat
      ensures !PemAnswers(t) ==> Pem.LoadInTurns(t, n) == None
    {
      PemTurns(t, n);
    }
  }

  // The ssh.com format.

  /** The lines of a text, with the lines joined that a header continues on. */
  function JoinedLines(t: string): seq<string>
    decreases |t|
  {
    if t == "" then []
    else
      var (line, rest) := NextLine(t);
      var (joined, after) := if IsHeader(line) then Com.Unfold(line, rest) else (line, rest);
      [joined] + JoinedLines(after)
  }

  predicate SshComAnswers(t: string) {
    var (line, rest) := NextLine(t);
    var ls := JoinedLines(rest);
    line != Com.BEGIN || Com.END in ls || HeaderAfterBody(ls) || BadAtom(Chars(BodyLines(ls)))
  }

  predicate SshComRefuses(done: bool, bit: string, ls: seq<string>) {
    HeaderAfterBody(ls) || (done && HasHeader(ls)) || BadAtom(bit + Chars(BodyLines(ls)))
  }

  lemma JoinedIsHeader(line: string, t: string)
    requires IsHeader(line)
    ensures IsHeader(Com.Unfold(line, t).0)
  {
    var colon := Find(line, ':');
    Com.UnfoldKeepsHead(line, t, colon + 1);
    var joined := Com.Unfold(line, t).0;
    assert joined[colon] == joined[..colon + 1][colon] == ':';
  }

  lemma SshComHeaderTurn(st: Com.Loaded, line: string, joined: string, t: string, ls: seq<string>)
    requires st.Valid() && IsHeader(line) && IsHeader(joined)
    ensures SshComRefuses(st.headersDone, st.body.bit, [joined] + ls)
         == match Com.Turn(st, line, t)
            case Failure(_) => true
            case Success((next, _)) => SshComRefuses(next.headersDone, next.body.bit, ls)
  {
    var all := [joined] + ls;
    assert all[0] == joined && all[1..] == ls && joined in all;
    hide Com.Unfold, Com.CountSpaces, Chars, BadAtom;
    assert BodyLines(all) == [] + BodyLines(ls) == BodyLines(ls);
  }

  lemma SshComBodyTurn(st: Com.Loaded, line: string, t: string, ls: seq<string>)
    requires st.Valid() && !IsHeader(line)
    ensures SshComRefuses(st.headersDone, st.body.bit, [line] + ls)
         == match Com.Turn(st, line, t)
            case Failure(_) => true
            case Success((next, _)) => SshComRefuses(next.headersDone, next.body.bit, ls)
  {
    var all := [line] + ls;
    assert all[0] == line && all[1..] == ls;
    hide Feed, Chars, BadAtom;
    assert BodyLines(all) == [line] + BodyLines(ls);
    LineFindsBadAtom(st.body, line, BodyLines(ls));
  }

  /** The text that a turn leaves is the one after the joined lines. */
  lemma TurnLeaves(st: Com.Loaded, line: string, t: string)
    requires st.Valid() && Com.Turn(st, line, t).Success?
    ensures Com.Turn(st, line, t).value.1 == if IsHeader(line) then Com.Unfold(line, t).1 else t
  {
    hide Com.Unfold, Com.CountSpaces, Feed;
  }

  /** One turn, and the lines that are left. */
  lemma SshComTurn(st: Com.Loaded, t: string)
    requires st.Valid() && t != ""
    ensures var (line, rest) := NextLine(t);
            var (joined, after) := if IsHeader(line) then Com.Unfold(line, rest) else (line, rest);
            && JoinedLines(t) == [joined] + JoinedLines(after)
            && (joined == Com.END <==> line == Com.END)
            && match Com.Turn(st, line, rest)
               case Failure(_) => SshComRefuses(st.headersDone, st.body.bit, JoinedLines(t))
               case Success((next, left)) =>
                 && left == after
                 && (SshComRefuses(st.headersDone, st.body.bit, JoinedLines(t))
                     <==> SshComRefuses(next.headersDone, next.body.bit, JoinedLines(after)))
  {
    var (line, rest) := NextLine(t);
    var (joined, after) := if IsHeader(line) then Com.Unfold(line, rest) else (line, rest);
    assert !IsHeader(Com.END);
    hide SshComRefuses, Com.Turn, Com.Unfold, NextLine, IsHeader;
    if IsHeader(line) {
      JoinedIsHeader(line, rest);
      SshComHeaderTurn(st, line, joined, rest, JoinedLines(after));
    } else {
      SshComBodyTurn(st, line, rest, JoinedLines(after));
    }
    if Com.Turn(st, line, rest).Success? {
      TurnLeaves(st, line, rest);
    }
  }

  lemma {:induction false} SshComLines(st: Com.Loaded, t: string)
    requires st.Valid()
    ensures Com.Lines(st, t) == Failure(NoAnswer)
       <==> Com.END !in JoinedLines(t) && !SshComRefuses(st.headersDone, st.body.bit, JoinedLines(t))
    decreases |t|
  {
    if t == "" {
      CarryHasNoBadAtom(st.body);
    } else {
      hide SshComRefuses, Com.Turn, Com.Unfold, NextLine, IsHeader, JoinedLines;
      SshComTurn(st, t);
      var (line, rest) := NextLine(t);
      if line != Com.END && Com.Turn(st, line, rest).Success? {
        var (next, after) := Com.Turn(st, line, rest).value;
        SshComLines(next, after);
      }
    }
  }

  lemma SshComLoad(t: string)
    ensures Com.Load(t) == Failure(NoAnswer) <==> !SshComAnswers(t)
  {
    var rest := NextLine(t).1;
    hide NextLine, Com.Lines, BadAtom, Chars, BodyLines, HeaderAfterBody, HasHeader, JoinedLines;
    SshComLines(Com.Start(), rest);
    assert "" + Chars(BodyLines(JoinedLines(rest))) == Chars(BodyLines(JoinedLines(rest)));
  }

  lemma SshComTurns(t: string, n: nat)
    ensures Com.Load(t) == Failure(NoAnswer) ==> Com.LoadInTurns(t, n) == None
    ensures Com.Load(t) != Failure(NoAnswer) && n > |t| ==> Com.LoadInTurns(t, n) == Some(Com.Load(t))
  {
    hide NextLine, Com.Lines, Com.LinesInTurns, Com.Start;
    Com.TurnsOfLines(Com.Start(), NextLine(t).1, n);
  }

  /**
   * The loader answers if and only if the lines, once joined, have an END line, a header after the
   * body has begun, or a bad atom. An END line that a header continues on does not count.
   */
  lemma SshComAnswersIff(t: string)
    ensures SshComAnswers(t) <==> Com.LoadInTurns(t, |t| + 1).Some?
    ensures SshComAnswers(t) ==> Com.LoadInTurns(t, |t| + 1) == Some(Com.Load(t))
    ensures !SshComAnswers(t) ==> forall n: nat :: Com.LoadInTurns(t, n) == None
    ensures !SshComAnswers(t) <==> Com.Load(t) == Failure(NoAnswer)
  {
    hide *;
    SshComLoad(t);
    SshComTurns(t, |t| + 1);
    forall n: nat
      ensures !SshComAnswers(t) ==> Com.LoadInTurns(t, n) == None
    {
      SshComTurns(t, n);
    }
  }

  // Files without an END line.

  lemma TwoLines(begin: string, line: string)
    requires Clean(begin) && Clean(line)
    ensures NextLine(begin + "\n" + (line + "\n")) == (begin, line + "\n")
    ensures LinesOf(line + "\n") == [line]
    ensures !IsHeader(line) ==> JoinedLines(line + "\n") == [line]
  {
    NextLineOfWritten(begin, line + "\n");
    assert line + "\n" == line + "\n" + "";
    NextLineOfWritten(line, "");
  }

  const LINE := "AAAA"

  lemma LineIsPlain()
    ensures Clean(LINE) && !IsHeader(LINE) && !BadAtom(Chars([LINE])) && BodyLines([LINE]) == [LINE]
    ensures LINE != New.END && LINE != Com.END && !Pem.IsEnd(LINE) && !HeaderAfterBody([LINE])
  {
  }

  /** After any number of turns the loaders are still reading a file of a BEGIN line and one line of base64. */
  lemma NewNeverAnswers(n: nat)
    ensures New.LoadInTurns(New.BEGIN + "\n" + (LINE + "\n"), n) == None
  {
    LineIsPlain();
    assert Clean(New.BEGIN);
    TwoLines(New.BEGIN, LINE);
    hide BadAtom, Chars, LinesOf, NextLine, New.LoadInTurns, Clean, IsHeader;
    NewAnswersIff(New.BEGIN + "\n" + (LINE + "\n"));
  }

  lemma PemNeverAnswers(kt: Pem.KeyType, n: nat)
    ensures Pem.LoadInTurns(Pem.BeginLine(kt) + "\n" + (LINE + "\n"), n) == None
  {
    LineIsPlain();
    PemRoundTrip.FirstLine(kt);
    TwoLines(Pem.BeginLine(kt), LINE);
    hide BadAtom, Chars, LinesOf, NextLine, Clean, IsHeader, HeaderAfterBody, BodyLines;
    hide Pem.LoadInTurns, Pem.BeginLine, Pem.ParseBegin, Pem.IsEnd;
    PemAnswersIff(Pem.BeginLine(kt) + "\n" + (LINE + "\n"));
  }

  lemma SshComNeverAnswers(n: nat)
    ensures Com.LoadInTurns(Com.BEGIN + "\n" + (LINE + "\n"), n) == None
  {
    LineIsPlain();
    assert Clean(Com.BEGIN);
    TwoLines(Com.BEGIN, LINE);
    hide BadAtom, Chars, JoinedLines, NextLine, Com.LoadInTurns, Clean, IsHeader, HeaderAfterBody, BodyLines;
    SshComAnswersIff(Com.BEGIN + "\n" + (LINE + "\n"));
  }

  lemma JoinedOnce(header: string, t: string, rest: string, end: string)
    requires NextLine(t) == (header + "\\", rest) && t != "" && NextLine(rest) == (end, "")
    requires IsHeader(header) && !Com.Continues(header + end)
    ensures JoinedLines(t) == [header + end]
  {
    var line := header + "\\";
    assert IsHeader(line) && line[..|line| - 1] == header;
    hide NextLine, IsHeader;
    assert Com.Unfold(header + end, "") == (header + end, "");
    assert Com.Unfold(line, rest) == (header + end, "");
  }

  lemma EndIsNoHeader()
    ensures !IsHeader(Com.END)
  {
  }

  lemma OneHeader(line: string)
    requires IsHeader(line)
    ensures !HeaderAfterBody([line]) && BodyLines([line]) == [] && !BadAtom(Chars([]))
  {
    assert [line][1..] == [];
  }

  lemma OneHeaderNeverAnswers(t: string, line: string, n: nat)
    requires NextLine(t).0 == Com.BEGIN && JoinedLines(NextLine(t).1) == [line] && IsHeader(line)
    ensures Com.LoadInTurns(t, n) == None
  {
    EndIsNoHeader();
    OneHeader(line);
    hide BadAtom, JoinedLines, NextLine, Com.LoadInTurns, HeaderAfterBody, BodyLines, Chars, IsHeader;
    SshComAnswersIff(t);
  }

  lemma EndIsClean()
    ensures Clean(Com.BEGIN) && Clean(Com.END) && Com.END != "" && Com.END[|Com.END| - 1] != '\\'
  {
  }

  /** An END line that a header is continued on does not end the file. */
  lemma EndIsSwallowed(header: string, n: nat)
    requires IsHeader(header) && Clean(header + "\\")
    ensures Com.LoadInTurns(Com.BEGIN + "\n" + (header + "\\" + "\n" + (Com.END + "\n")), n) == None
  {
    EndIsClean();
    var end := Com.END;
    assert IsHeader(header + end) && !Com.Continues(header + end);
    hide *;
    var rest := header + "\\" + "\n" + (end + "\n");
    NextLineOfWritten(Com.BEGIN, rest);
    NextLineOfWritten(header + "\\", end + "\n");
    assert end + "\n" == end + "\n" + "";
    NextLineOfWritten(end, "");
    JoinedOnce(header, rest, end + "\n", end);
    OneHeaderNeverAnswers(Com.BEGIN + "\n" + rest, header + end, n);
  }
}
