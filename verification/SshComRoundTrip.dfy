/** Importing an exported ssh.com file gives the key back, and the comment's first 255 characters. */
module SshComRoundTrip {
  import opened Bytes
  import opened Marshal
  import opened Mpint
  import opened Base64
  import opened KeyText
  import opened Keys
  import opened SshCom

  // The folded comment.

  /** A comment that survives being written as lines: no NUL and no newline. */
  ghost predicate OneLine(c: string) {
    forall i :: 0 <= i < |c| ==> c[i] != '\n' && c[i] != '\0'
  }

  lemma CleanEnd(c: string, end: char)
    requires OneLine(c) && (end == '\\' || end == '"')
    ensures Clean(c + [end])
  {
  }

  lemma FoldedLine(c: string, slen: nat, tail: string)
    requires OneLine(c) && slen > 0
    ensures NextLine(FoldComment(c, slen) + tail)
         == if |c| > slen then (c[..slen] + "\\", FoldComment(c[slen..], 70) + tail) else (c + "\"", tail)
  {
    if |c| > slen {
      var line, rest := c[..slen] + "\\", FoldComment(c[slen..], 70);
      CleanEnd(c[..slen], '\\');
      hide NextLine, Clean;
      assert FoldComment(c, slen) == line + "\n" + rest;
      hide FoldComment;
      Assoc(line + "\n", rest, tail);
      NextLineOfWritten(line, rest + tail);
    } else {
      CleanEnd(c, '"');
      hide NextLine, Clean;
      assert FoldComment(c, slen) == c + "\"" + "\n";
      NextLineOfWritten(c + "\"", tail);
    }
  }

  /** Unfolding undoes folding, wherever the comment itself has backslashes. */
  lemma {:induction false} UnfoldOfFold(prefix: string, c: string, slen: nat, tail: string)
    requires OneLine(c) && slen > 0
    ensures var (line, rest) := NextLine(FoldComment(c, slen) + tail);
            Unfold(prefix + line, rest) == (prefix + c + "\"", tail)
    decreases |c|
  {
    hide NextLine, FoldComment;
    FoldedLine(c, slen, tail);
    if |c| > slen {
      var joined := prefix + (c[..slen] + "\\");
      var t := FoldComment(c[slen..], 70) + tail;
      UnfoldOfFold(prefix + c[..slen], c[slen..], 70, tail);
      assert joined[..|joined| - 1] == prefix + c[..slen];
      assert joined[|joined| - 1] == '\\';
      FoldIsNotEmpty(c[slen..]);
      assert prefix + c[..slen] + c[slen..] + "\"" == prefix + c + "\"";
    } else {
      assert prefix + (c + "\"") == prefix + c + "\"";
    }
  }

  lemma FoldIsNotEmpty(c: string)
    ensures FoldComment(c, 70) != ""
  {
  }

  lemma CommentIsQuoted(c: string)
    ensures StripQuotes("\"" + c + "\"") == c
  {
    var v := "\"" + c + "\"";
    assert v[1..|v| - 1] == c;
  }

  lemma CommentField(st: Loaded, c: string)
    requires st.Valid()
    ensures HeaderField(st, COMMENT + c + "\"", 7, 9) == st.(comment := Truncate(c))
  {
    var line := COMMENT + c + "\"";
    assert line[..7] == "Comment" by {
      assert COMMENT[..7] == "Comment";
    }
    assert line[9..] == "\"" + c + "\"" by {
      assert COMMENT[9..] == "\"";
    }
    CommentIsQuoted(c);
  }

  lemma CommentColon(c: string)
    ensures Find(COMMENT + c, ':') == 7
    ensures CountSpaces((COMMENT + c)[8..]) == 1
    ensures COMMENT + c != END
  {
    var line := COMMENT + c;
    CommentChars();
    assert line[0] == 'C' && END[0] == '-';
    hide Find, CountSpaces;
    FindIs(line, ':', 7);
    OneSpace(line[8..]);
  }

  lemma CommentChars()
    ensures |COMMENT| == 10 && COMMENT[0] == 'C' && COMMENT[7] == ':' && COMMENT[8] == ' ' && COMMENT[9] == '"'
    ensures forall i :: 0 <= i < 7 ==> COMMENT[i] != ':'
  {
  }

  lemma OneSpace(s: string)
    requires |s| >= 2 && s[0] == ' ' && s[1] == '"'
    ensures CountSpaces(s) == 1
  {
    assert s[1..][0] == '"';
  }

  /** The first physical line of the header, which is where the folding starts. */
  lemma FirstHeaderLine(comment: string, tail: string)
    requires OneLine(comment)
    ensures var (line, rest) := NextLine(FoldComment(comment, 60) + tail);
            NextLine(COMMENT + FoldComment(comment, 60) + tail) == (COMMENT + line, rest)
  {
    FoldedLine(comment, 60, tail);
    assert Clean(COMMENT);
    hide NextLine;
    if |comment| > 60 {
      var line, rest := comment[..60] + "\\", FoldComment(comment[60..], 70) + tail;
      assert COMMENT + FoldComment(comment, 60) + tail == (COMMENT + line) + "\n" + rest;
      NextLineOfWritten(COMMENT + line, rest);
    } else {
      var line := comment + "\"";
      assert COMMENT + FoldComment(comment, 60) + tail == (COMMENT + line) + "\n" + tail;
      NextLineOfWritten(COMMENT + line, tail);
    }
  }

  /** The comment header is read, whatever the comment holds besides NUL and newline. */
  lemma CommentIsRead(comment: string, tail: string)
    requires OneLine(comment)
    ensures Lines(Start(), COMMENT + FoldComment(comment, 60) + tail)
         == Lines(Loaded(false, Truncate(comment), Body("", [])), tail)
  {
    var (line, rest) := NextLine(FoldComment(comment, 60) + tail);
    FirstHeaderLine(comment, tail);
    UnfoldOfFold(COMMENT, comment, 60, tail);
    CommentColon(line);
    CommentField(Start(), comment);
    assert COMMENT + FoldComment(comment, 60) + tail != "";
    hide NextLine, FoldComment, Unfold, HeaderField, Find, CountSpaces, Truncate;
  }

  /** What any loaded comment looks like. */
  ghost predicate Loadable(c: string) {
    |c| <= 255 && '\n' !in c
  }

  /** Whatever the file says, the loaded comment is short and has no newline. */
  lemma {:induction false} LoadedComment(st: Loaded, t: string)
    requires st.Valid() && Loadable(st.comment)
    ensures Lines(st, t).Success? ==> Loadable(Lines(st, t).value.comment)
    decreases |t|
  {
    if t != "" {
      var (line, rest) := NextLine(t);
      assert '\n' !in line;
      TurnIsLoadable(st, line, rest);
      hide Turn, NextLine, Loadable;
      if line != END && Turn(st, line, rest).Success? {
        var (next, after) := Turn(st, line, rest).value;
        LoadedComment(next, after);
      }
    }
  }

  lemma TurnIsLoadable(st: Loaded, line: string, t: string)
    requires st.Valid() && Loadable(st.comment) && '\n' !in line
    ensures Turn(st, line, t).Success? ==> Loadable(Turn(st, line, t).value.0.comment)
  {
    hide CountSpaces, Unfold, HeaderField, Feed, Loadable;
    var colon := Find(line, ':');
    if colon < |line| && !st.headersDone {
      var start := colon + 1 + CountSpaces(line[colon + 1..]);
      SpacesAreNotBackslashes(line[colon + 1..]);
      UnfoldKeepsHead(line, t, start);
      UnfoldHasNoNewline(line, t);
      FieldIsLoadable(st, Unfold(line, t).0, colon, start);
    }
  }

  lemma FieldIsLoadable(st: Loaded, line: string, colon: nat, start: nat)
    requires st.Valid() && colon < start <= |line| && Loadable(st.comment) && '\n' !in line
    ensures Loadable(HeaderField(st, line, colon, start).comment)
  {
  }

  lemma {:induction false} UnfoldHasNoNewline(line: string, t: string)
    requires '\n' !in line
    ensures '\n' !in Unfold(line, t).0
    decreases |t|, |line|
  {
    if Continues(line) {
      var (line2, rest) := NextLine(t);
      UnfoldHasNoNewline(line[..|line| - 1] + line2, rest);
    }
  }

  // The body.

  lemma BodyLine(st: Loaded, line: string, tail: string)
    requires st.Valid() && AllBase64(line)
    ensures Lines(st, line + "\n" + tail)
         == match Feed(st.body, line)
            case None => Failure(BadBase64)
            case Some(body) => Lines(st.(headersDone := true, body := body), tail)
  {
    Base64IsNotEnd(line);
    hide NextLine, Feed, Find, Unfold, Clean;
    Base64IsClean(line);
    NextLineOfWritten(line, tail);
    FindIs(line, ':', |line|);
  }

  lemma Base64IsNotEnd(line: string)
    requires AllBase64(line)
    ensures line != END
  {
    assert END[0] == '-';
  }

  lemma {:induction false} BodyLines(st: Loaded, s: string, cpl: nat, tail: string)
    requires st.Valid() && AllBase64(s) && cpl > 0
    ensures Lines(st, WrapLines(s, cpl) + tail)
         == match Feed(st.body, s)
            case None => Failure(BadBase64)
            case Some(body) => Lines(st.(headersDone := true, body := body), tail)
    decreases |s|
  {
    hide Lines, Feed;
    if |s| <= cpl {
      BodyLine(st, s, tail);
    } else {
      var rest := WrapLines(s[cpl..], cpl);
      Assoc(s[..cpl] + "\n", rest, tail);
      BodyLine(st, s[..cpl], rest + tail);
      FeedTwoLines(st.body, s[..cpl], s[cpl..]);
      assert s[..cpl] + s[cpl..] == s;
      match Feed(st.body, s[..cpl])
      case None =>
      case Some(body) => BodyLines(st.(headersDone := true, body := body), s[cpl..], cpl, tail);
    }
  }

  lemma CleanMarkers()
    ensures Clean(BEGIN)
    ensures Clean(END)
  {
  }

  lemma EndStops(st: Loaded)
    requires st.Valid()
    ensures Lines(st, END + "\n") == Success(st)
  {
    hide NextLine, Clean, Unfold, Find;
    CleanMarkers();
    assert END + "\n" == END + "\n" + "";
    NextLineOfWritten(END, "");
  }

  /** The text layer, comment and blob together. Atoms cross line ends here: 70 is not a multiple of 4. */
  lemma LoadOfFile(comment: string, blob: seq<Byte>)
    requires OneLine(comment) && blob != []
    ensures Load(FileOf(comment, blob)) == Success((Truncate(comment), blob))
  {
    CleanMarkers();
    assert FileOf(comment, blob)
        == BEGIN + "\n" + (COMMENT + FoldComment(comment, 60)) + WrapLines(EncodeChars(blob), 70) + (END + "\n");
    assert BEGIN + "\n" + (COMMENT + FoldComment(comment, 60)) + WrapLines(EncodeChars(blob), 70) + (END + "\n") != "";
    hide Lines, Feed, WrapLines, EncodeChars, NextLine, Clean, FoldComment, Truncate, FileOf;
    var head, body, end := COMMENT + FoldComment(comment, 60), WrapLines(EncodeChars(blob), 70), END + "\n";
    Assoc(BEGIN + "\n", head, body);
    Assoc(BEGIN + "\n", head + body, end);
    Assoc(head, body, end);
    NextLineOfWritten(BEGIN, head + (body + end));
    CommentIsRead(comment, body + end);
    var st := Loaded(false, Truncate(comment), Body("", []));
    BodyLines(st, EncodeChars(blob), 70, end);
    FeedOfEncode([], blob);
    assert [] + blob == blob;
    EndStops(st.(headersDone := true, body := Body("", blob)));
  }

  // The blob.

  lemma {:induction false} GetMpsOfPut(ns: seq<seq<Byte>>)
    requires forall i :: 0 <= i < |ns| ==> |ns[i]| < 0x1000_0000
    ensures var (ms, i) := GetMps(Input(Mps(ns), false), |ns|);
            i == Input([], false) && forall k :: 0 <= k < |ns| ==> Canon(ms[k]) == Canon(ns[k])
    decreases |ns|
  {
    hide GetMpSshcom, MpSshcom, Canon;
    if ns != [] {
      GetMpSshcomOfPut(ns[0], Mps(ns[1..]));
      GetMpsOfPut(ns[1..]);
      var (ms, i) := GetMps(Input(Mps(ns), false), |ns|);
      var (rest, _) := GetMps(Input(Mps(ns[1..]), false), |ns| - 1);
      forall k | 0 <= k < |ns|
        ensures Canon(ms[k]) == Canon(ns[k])
      {
        if k > 0 {
          assert ms[k] == rest[k - 1] && ns[k] == ns[1..][k - 1];
        }
      }
    }
  }

  lemma PayloadOfRsa(parts: Parts, wrong: bool)
    requires parts.Fits() && parts.RsaParts?
    ensures ReadPayload(Rsa, wrong, Input(Payload(parts), false)) == Success(parts.Canonicalised().Key())
  {
    var ns := Numbers(parts);
    assert [] + Mps(ns) == Mps(ns);
    GetMpsOfPut(ns);
    var (ms, _) := GetMps(Input(Mps(ns), false), 6);
    RsaKeyOfNumbers(parts, ms);
    hide GetMps, Mps, RsaKey, Parts.Canonicalised, Parts.Key;
  }

  lemma RsaKeyOfNumbers(parts: Parts, ms: seq<seq<Byte>>)
    requires parts.RsaParts? && |ms| == 6
    requires forall k :: 0 <= k < 6 ==> Canon(ms[k]) == Canon(Numbers(parts)[k])
    ensures RsaKey(ms[0], ms[1], ms[2], ms[3], ms[4], ms[5]) == parts.Canonicalised().Key()
  {
    var RsaParts(e, n, d, p, q, iqmp) := parts;
    var ns := Numbers(parts);
    assert ns[0] == e && ns[1] == d && ns[2] == n && ns[3] == iqmp && ns[4] == q && ns[5] == p;
    hide Canon, ToBytes, Str, Strs;
    StrsOfThree(ToBytes("ssh-rsa"), Canon(e), Canon(n));
    StrsOfFour(Canon(d), Canon(p), Canon(q), Canon(iqmp));
  }

  lemma PayloadOfDsa(parts: Parts, wrong: bool)
    requires parts.Fits() && parts.DsaParts?
    ensures ReadPayload(Dsa, wrong, Input(Payload(parts), false)) == Success(parts.Canonicalised().Key())
  {
    var ns := Numbers(parts);
    GetUint32OfPut(0, Mps(ns));
    GetMpsOfPut(ns);
    var (ms, _) := GetMps(Input(Mps(ns), false), 5);
    DsaKeyOfNumbers(parts, ms);
    hide GetUint32, GetMps, Mps, Put32, DsaKey, Parts.Canonicalised, Parts.Key;
  }

  lemma DsaKeyOfNumbers(parts: Parts, ms: seq<seq<Byte>>)
    requires parts.DsaParts? && |ms| == 5
    requires forall k :: 0 <= k < 5 ==> Canon(ms[k]) == Canon(Numbers(parts)[k])
    ensures DsaKey(ms[0], ms[1], ms[2], ms[3], ms[4]) == parts.Canonicalised().Key()
  {
    var DsaParts(p, q, g, y, x) := parts;
    var ns := Numbers(parts);
    assert ns[0] == p && ns[1] == g && ns[2] == q && ns[3] == y && ns[4] == x;
    hide Canon, ToBytes, Str, Strs;
    StrsOfFive(ToBytes("ssh-dss"), Canon(p), Canon(q), Canon(g), Canon(y));
    StrsOfOne(Canon(x));
  }

  lemma {:induction false} MpsAreSmall(ns: seq<seq<Byte>>)
    requires forall i :: 0 <= i < |ns| ==> |ns[i]| <= 0x100_0000
    ensures |Mps(ns)| <= |ns| * 0x100_0004
    decreases |ns|
  {
    if ns != [] {
      MpsAreSmall(ns[1..]);
    }
  }

  lemma PayloadIsSmall(parts: Parts)
    requires parts.Fits() && !parts.EcParts?
    ensures |Payload(parts)| < 0x1000_0000
  {
    hide Mps;
    MpsAreSmall(Numbers(parts));
  }

  /** The containing string ends where the padding starts, so the padding is never looked at. */
  lemma PlainIsRead(parts: Parts, wrong: bool, pad: seq<Byte>)
    requires parts.Fits() && !parts.EcParts?
    ensures ReadPlain(parts.Alg(), wrong, Str(Payload(parts)) + pad) == Success(parts.Canonicalised().Key())
  {
    PayloadIsSmall(parts);
    GetStringOfPut(Payload(parts), pad);
    if parts.RsaParts? {
      PayloadOfRsa(parts, wrong);
    } else {
      PayloadOfDsa(parts, wrong);
    }
    hide GetString, ReadPayload, Payload, Parts.Canonicalised, Parts.Key;
  }

  lemma FieldsOfBlob(keyType: seq<Byte>, cipher: seq<Byte>, ciphertext: seq<Byte>)
    requires |keyType| < 64 && |cipher| < 64 && |ciphertext| < 0x4000_0000
    ensures ReadFields(Blob(keyType, cipher, ciphertext)) == Fields(MAGIC, keyType, cipher, ciphertext)
  {
    var a, b, c := Str(keyType), Str(cipher), Str(ciphertext);
    var total := |a + b + c| + 8;
    assert total < TWO_32;
    hide GetString, GetUint32, Str, Put32;
    assert c + [] == c;
    assert Blob(keyType, cipher, ciphertext) == Put32(MAGIC) + (Put32(total) + (a + (b + c)));
    GetUint32OfPut(MAGIC, Put32(total) + (a + (b + c)));
    GetUint32OfPut(total, a + (b + c));
    GetStringOfPut(keyType, b + c);
    GetStringOfPut(cipher, c);
    GetStringOfPut(ciphertext, []);
  }

  lemma TypeIsParsed(alg: Alg)
    requires alg == Rsa || alg == Dsa
    ensures ParseType(ToBytes(TypeName(alg))) == Some(alg)
  {
    NamesAreNarrow();
    var name := ToBytes(TypeName(alg));
    if alg == Rsa {
      assert name[..16] == ToBytes(RSA_PREFIX);
    } else {
      assert name[..16] == ToBytes(DSA_PREFIX);
      assert name[0] == 'd' as int && ToBytes(RSA_PREFIX)[0] == 'i' as int;
      assert name[..16][0] != ToBytes(RSA_PREFIX)[0];
    }
  }

  lemma CipherIsParsed(encrypted: bool)
    ensures ParseCipher(ToBytes(CipherName(encrypted))) == Some(encrypted)
  {
    assert |ToBytes("3des-cbc")| != |ToBytes("none")|;
  }

  lemma CiphertextFacts(suite: Suite, plain: seq<Byte>, passphrase: Option<seq<Byte>>, noise: seq<Byte>)
    requires suite.Sound() && |noise| == 8
    ensures |plain| <= |Ciphertext(suite, plain, passphrase, noise)| <= |plain| + 7
    ensures passphrase.Some? ==>
              var c := Ciphertext(suite, plain, passphrase, noise);
              && |c| % 8 == 0
              && suite.des3Decrypt(DeriveKey(suite, passphrase.value), ZeroIv(), c)
              == plain + noise[..PadLength(|plain|)]
  {
    hide DeriveKey;
    if passphrase.Some? {
      assert |plain + noise[..PadLength(|plain|)]| % 8 == 0;
    }
  }

  lemma BlobIsRead(suite: Suite, parts: Parts, passphrase: Option<seq<Byte>>, noise: seq<Byte>, given: seq<Byte>)
    requires suite.Sound() && parts.Fits() && !parts.EcParts? && |noise| == 8
    requires passphrase.Some? ==> given == passphrase.value
    ensures ReadBlob(suite, Fields(MAGIC, ToBytes(TypeName(parts.Alg())), ToBytes(CipherName(passphrase.Some?)),
                                   Ciphertext(suite, Str(Payload(parts)), passphrase, noise)), given)
         == Success(parts.Canonicalised().Key())
  {
    var plain := Str(Payload(parts));
    var pad := if passphrase.Some? then noise[..PadLength(|plain|)] else [];
    CiphertextFacts(suite, plain, passphrase, noise);
    TypeIsParsed(parts.Alg());
    CipherIsParsed(passphrase.Some?);
    PlainIsRead(parts, passphrase.Some?, pad);
    assert passphrase.None? ==> plain + pad == plain && Ciphertext(suite, plain, passphrase, noise) == plain;
    assert |plain| >= 4;
    hide ReadPlain, Payload, Str, ToBytes, TypeName, CipherName, ParseType, ParseCipher, Ciphertext, DeriveKey,
         Parts.Canonicalised, Parts.Key;
  }

  /**
   * For every RSA or DSA key, with or without a passphrase, and every comment of one line: reading the
   * exported file gives the key with each integer canonical, and the comment's first 255 characters.
   */
  lemma ReadOfFile(suite: Suite, parts: Parts, comment: string, passphrase: Option<seq<Byte>>, noise: seq<Byte>,
                   given: seq<Byte>)
    requires suite.Sound() && parts.Fits() && !parts.EcParts? && |noise| == 8 && OneLine(comment)
    requires passphrase.Some? ==> given == passphrase.value
    ensures Read(suite, File(suite, parts, comment, passphrase, noise).value, given)
         == Success(UserKey(parts.Canonicalised().Key(), Truncate(comment)))
  {
    var plain := Str(Payload(parts));
    var c := Ciphertext(suite, plain, passphrase, noise);
    var keyType, cipher := ToBytes(TypeName(parts.Alg())), ToBytes(CipherName(passphrase.Some?));
    var blob := Blob(keyType, cipher, c);
    assert File(suite, parts, comment, passphrase, noise).value == FileOf(comment, blob);
    assert |plain| == |Payload(parts)| + 4 && blob != [];
    PayloadIsSmall(parts);
    CiphertextFacts(suite, plain, passphrase, noise);
    FieldsOfBlob(keyType, cipher, c);
    BlobIsRead(suite, parts, passphrase, noise, given);
    LoadOfFile(comment, blob);
    hide File, FileOf, Blob, Ciphertext, Payload, Str, ToBytes, TypeName, CipherName, ReadFields, ReadBlob, Load,
         Parts.Canonicalised, Parts.Key, Truncate;
  }

  /** The file gives back the very key and comment exactly when the integers are canonical and the comment short. */
  lemma RoundTripIffCanonical(suite: Suite, parts: Parts, comment: string, passphrase: Option<seq<Byte>>,
                              noise: seq<Byte>, given: seq<Byte>)
    requires suite.Sound() && parts.Fits() && !parts.EcParts? && |noise| == 8 && OneLine(comment)
    requires passphrase.Some? ==> given == passphrase.value
    ensures Read(suite, File(suite, parts, comment, passphrase, noise).value, given)
            == Success(UserKey(parts.Key(), comment))
       <==> parts.IsCanonical() && |comment| <= 255
  {
    assert Truncate(comment) == comment <==> |comment| <= 255;
    hide *;
    ReadOfFile(suite, parts, comment, passphrase, noise, given);
    KeyIsCanonical(parts);
  }

  /** No file reads back as a key whose comment has a newline or more than 255 characters. */
  lemma UnloadableCommentIsLost(suite: Suite, t: string, given: seq<Byte>)
    ensures Read(suite, t, given).Success? ==> Loadable(Read(suite, t, given).value.comment)
  {
    if t != "" && NextLine(t).0 == BEGIN {
      LoadedComment(Start(), NextLine(t).1);
    }
    hide Lines, NextLine, ReadBlob, ReadFields;
  }

  /** So the comment survives exactly when it is a single line of at most 255 characters. */
  lemma CommentSurvivesIff(suite: Suite, parts: Parts, comment: string, passphrase: Option<seq<Byte>>,
                           noise: seq<Byte>, given: seq<Byte>)
    requires suite.Sound() && parts.Fits() && !parts.EcParts? && |noise| == 8 && '\0' !in comment
    requires passphrase.Some? ==> given == passphrase.value
    ensures Read(suite, File(suite, parts, comment, passphrase, noise).value, given)
            == Success(UserKey(parts.Canonicalised().Key(), comment))
       <==> '\n' !in comment && |comment| <= 255
  {
    assert '\n' !in comment ==> OneLine(comment);
    assert Truncate(comment) == comment <==> |comment| <= 255;
    assert Loadable(comment) <==> '\n' !in comment && |comment| <= 255;
    hide *;
    if OneLine(comment) {
      ReadOfFile(suite, parts, comment, passphrase, noise, given);
    }
    UnloadableCommentIsLost(suite, File(suite, parts, comment, passphrase, noise).value, given);
  }
}
