/** ssh.com files that other programs write: any headers, folded anywhere, and any type string of the two key types. */
module SshComFiles {
  import opened Bytes
  import opened Marshal
  import opened Mpint
  import opened Base64
  import opened KeyText
  import opened Keys
  import opened SshCom
  import opened SshComRoundTrip

  // Headers.

  /** A header's name, the white space after its colon, and the pieces of its value, one to a line. */
  datatype Field = Field(name: string, spaces: string, pieces: seq<string>) {
    function Value(): string {
      Concat(pieces)
    }

    function Text(): string
      requires pieces != []
    {
      Folded(name + ":" + spaces, pieces)
    }

    ghost predicate Valid() {
      && pieces != [] && AreOneLine(pieces)
      && ':' !in name && OneLine(name) && OneLine(spaces)
      && (forall i :: 0 <= i < |spaces| ==> IsSpace(spaces[i] as int))
      && !StartsWithSpace(pieces[0]) && !Continues(name + ":" + spaces + Value())
      && Clean(if |pieces| == 1 then name + ":" + spaces + pieces[0] else pieces[|pieces| - 1])
    }
  }

  predicate StartsWithSpace(s: string) {
    s != "" && IsSpace(s[0] as int)
  }

  ghost predicate AreOneLine(pieces: seq<string>) {
    forall i :: 0 <= i < |pieces| ==> OneLine(pieces[i])
  }

  function Concat(pieces: seq<string>): string {
    if pieces == [] then "" else pieces[0] + Concat(pieces[1..])
  }

  /** Each line but the last ends in a backslash. */
  function Folded(head: string, pieces: seq<string>): string
    requires pieces != []
    decreases |pieces|
  {
    if |pieces| == 1 then head + pieces[0] + "\n"
    else head + pieces[0] + "\\" + "\n" + Folded("", pieces[1..])
  }

  function HeaderText(fs: seq<Field>): string
    requires forall i :: 0 <= i < |fs| ==> fs[i].pieces != []
  {
    if fs == [] then "" else fs[0].Text() + HeaderText(fs[1..])
  }

  ghost predicate AreValid(fs: seq<Field>) {
    forall i :: 0 <= i < |fs| ==> fs[i].pieces != [] && fs[i].Valid()
  }

  /** The value without the quotes around it, if there are any. */
  function Unquoted(v: string): string {
    if v == "\"" then ""
    else if |v| >= 2 && v[0] == '"' && v[|v| - 1] == '"' then v[1..|v| - 1]
    else v
  }

  function First255(v: string): string {
    if |v| <= 255 then v else v[..255]
  }

  /** What the headers say of the comment: the last header of that name counts, and no other name does. */
  function CommentOf(fs: seq<Field>, before: string): string
    decreases |fs|
  {
    if fs == [] then before
    else CommentOf(fs[1..], if fs[0].name == "Comment" then First255(Unquoted(fs[0].Value())) else before)
  }

  // Reading one of them.

  lemma FirstLineOfFolded(head: string, pieces: seq<string>, tail: string)
    requires pieces != [] && OneLine(head) && OneLine(pieces[0])
    requires |pieces| == 1 ==> Clean(head + pieces[0])
    ensures NextLine(Folded(head, pieces) + tail)
         == if |pieces| == 1 then (head + pieces[0], tail)
            else (head + pieces[0] + "\\", Folded("", pieces[1..]) + tail)
  {
    if |pieces| == 1 {
      assert Folded(head, pieces) + tail == head + pieces[0] + "\n" + tail;
      hide NextLine, Clean, Folded;
      NextLineOfWritten(head + pieces[0], tail);
    } else {
      var line, more := head + pieces[0] + "\\", Folded("", pieces[1..]);
      CleanEnd(head + pieces[0], '\\');
      assert Folded(head, pieces) == line + "\n" + more;
      hide NextLine, Clean, Folded;
      Assoc(line + "\n", more, tail);
      NextLineOfWritten(line, more + tail);
    }
  }

  lemma UnfoldOnce(line: string, t: string)
    ensures var (next, rest) := NextLine(t); Unfold(line + "\\", t) == Unfold(line + next, rest)
  {
    var all := line + "\\";
    assert Continues(all) && all[..|all| - 1] == line;
    hide NextLine, Continues;
  }

  lemma UnfoldNothing(line: string, t: string)
    requires !Continues(line)
    ensures Unfold(line, t) == (line, t)
  {
  }

  lemma {:induction false} UnfoldOfPieces(prefix: string, pieces: seq<string>, tail: string)
    requires pieces != [] && AreOneLine(pieces) && Clean(pieces[|pieces| - 1])
    requires !Continues(prefix + Concat(pieces))
    ensures var (line, rest) := NextLine(Folded("", pieces) + tail);
            Unfold(prefix + line, rest) == (prefix + Concat(pieces), tail)
    decreases |pieces|
  {
    assert "" + pieces[0] == pieces[0];
    assert OneLine("") && AreOneLine(pieces[1..]);
    FirstLineOfFolded("", pieces, tail);
    hide NextLine, Folded, Unfold, Continues, Clean, OneLine;
    if |pieces| == 1 {
      assert Concat(pieces) == pieces[0] + Concat([]) == pieces[0];
      UnfoldNothing(prefix + pieces[0], tail);
    } else {
      var more := pieces[1..];
      Assoc(prefix, pieces[0], Concat(more));
      UnfoldOfPieces(prefix + pieces[0], more, tail);
      Assoc(prefix, pieces[0], "\\");
      UnfoldOnce(prefix + pieces[0], Folded("", more) + tail);
    }
  }

  lemma {:induction false} SpacesAreCounted(spaces: string, v: string)
    requires (forall i :: 0 <= i < |spaces| ==> IsSpace(spaces[i] as int)) && !StartsWithSpace(v)
    ensures CountSpaces(spaces + v) == |spaces|
  {
    if spaces == "" {
      assert spaces + v == v;
    } else {
      assert (spaces + v)[1..] == spaces[1..] + v;
      SpacesAreCounted(spaces[1..], v);
    }
  }

  /** The first physical line of a header. */
  function FirstLine(f: Field): string
    requires f.pieces != []
  {
    if |f.pieces| == 1 then f.name + ":" + f.spaces + f.pieces[0] else f.name + ":" + f.spaces + f.pieces[0] + "\\"
  }

  lemma ColonAndStart(f: Field)
    requires f.Valid()
    ensures var line := FirstLine(f);
            && Find(line, ':') == |f.name| < |line|
            && CountSpaces(line[|f.name| + 1..]) == |f.spaces|
  {
    var line := FirstLine(f);
    var v := if |f.pieces| == 1 then f.pieces[0] else f.pieces[0] + "\\";
    assert line == f.name + ":" + f.spaces + v;
    assert line[|f.name|] == ':' && line[|f.name| + 1..] == f.spaces + v;
    assert !StartsWithSpace(v);
    hide Find, CountSpaces, FirstLine, Clean, Continues, StartsWithSpace;
    FindIs(line, ':', |f.name|);
    SpacesAreCounted(f.spaces, v);
  }

  lemma HeadIsOneLine(f: Field)
    requires f.Valid()
    ensures OneLine(f.name + ":" + f.spaces)
  {
  }

  /** Its lines come off the text joined. */
  lemma FieldIsUnfolded(f: Field, tail: string)
    requires f.Valid()
    ensures var (line, rest) := NextLine(f.Text() + tail);
            && line == FirstLine(f)
            && Unfold(line, rest) == (f.name + ":" + f.spaces + f.Value(), tail)
  {
    var head := f.name + ":" + f.spaces;
    var pieces := f.pieces;
    HeadIsOneLine(f);
    assert AreOneLine(pieces[1..]);
    FirstLineOfFolded(head, pieces, tail);
    hide NextLine, Folded, Unfold, Continues, Clean, OneLine;
    if |pieces| == 1 {
      assert Concat(pieces) == pieces[0] + Concat([]) == pieces[0];
      UnfoldNothing(head + pieces[0], tail);
    } else {
      Assoc(head, pieces[0], Concat(pieces[1..]));
      UnfoldOfPieces(head + pieces[0], pieces[1..], tail);
      UnfoldOnce(head + pieces[0], Folded("", pieces[1..]) + tail);
    }
  }

  lemma QuotesAreStripped(v: string)
    ensures Truncate(StripQuotes(v)) == First255(Unquoted(v))
  {
  }

  lemma FieldIsTaken(st: Loaded, f: Field)
    requires st.Valid() && f.pieces != []
    ensures var joined, start := f.name + ":" + f.spaces + f.Value(), |f.name| + 1 + |f.spaces|;
            && start <= |joined|
            && HeaderField(st, joined, |f.name|, start)
               == if f.name == "Comment" then st.(comment := First255(Unquoted(f.Value()))) else st
  {
    var joined, start := f.name + ":" + f.spaces + f.Value(), |f.name| + 1 + |f.spaces|;
    assert joined[..|f.name|] == f.name && joined[start..] == f.Value();
    QuotesAreStripped(f.Value());
    hide StripQuotes, Truncate, Unquoted, First255, Field.Value;
  }

  /** One turn of the loader takes one header, on however many lines. */
  lemma FieldIsRead(st: Loaded, f: Field, tail: string)
    requires st.Valid() && !st.headersDone && f.Valid()
    ensures Lines(st, f.Text() + tail)
         == Lines(if f.name == "Comment" then st.(comment := First255(Unquoted(f.Value()))) else st, tail)
  {
    FieldIsUnfolded(f, tail);
    ColonAndStart(f);
    FieldIsTaken(st, f);
    NotTheEnd(f);
    TextIsNotEmpty(f);
    var (line, rest) := NextLine(f.Text() + tail);
    hide Turn, NextLine, Unfold, HeaderField, Find, CountSpaces, FirstLine, Field.Text, Field.Value, Field.Valid,
         Unquoted, First255;
    HeaderIsTaken(st, line, rest);
  }

  lemma HeaderIsTaken(st: Loaded, line: string, t: string)
    requires st.Valid() && !st.headersDone && Find(line, ':') < |line|
    ensures var colon := Find(line, ':');
            var start := colon + 1 + CountSpaces(line[colon + 1..]);
            var (joined, after) := Unfold(line, t);
            start <= |joined| && Turn(st, line, t) == Success((HeaderField(st, joined, colon, start), after))
  {
    hide HeaderField, Unfold, CountSpaces, Find, Feed;
    var colon := Find(line, ':');
    SpacesAreNotBackslashes(line[colon + 1..]);
    UnfoldKeepsHead(line, t, colon + 1 + CountSpaces(line[colon + 1..]));
  }

  lemma NotTheEnd(f: Field)
    requires f.pieces != []
    ensures FirstLine(f) != END
  {
    assert FirstLine(f)[|f.name|] == ':';
    assert ':' !in END;
  }

  lemma TextIsNotEmpty(f: Field)
    requires f.pieces != []
    ensures f.Text() != ""
  {
  }

  /** All the headers of a file. */
  lemma {:induction false} FieldsAreRead(st: Loaded, fs: seq<Field>, tail: string)
    requires st.Valid() && !st.headersDone && AreValid(fs)
    ensures Lines(st, HeaderText(fs) + tail) == Lines(st.(comment := CommentOf(fs, st.comment)), tail)
    decreases |fs|
  {
    hide Lines, Field.Text, Unquoted, First255;
    if fs == [] {
      assert "" + tail == tail;
    } else {
      assert fs[0].Valid();
      var next := if fs[0].name == "Comment" then st.(comment := First255(Unquoted(fs[0].Value()))) else st;
      assert forall i :: 0 <= i < |fs| - 1 ==> fs[1..][i] == fs[i + 1];
      Assoc(fs[0].Text(), HeaderText(fs[1..]), tail);
      FieldIsRead(st, fs[0], HeaderText(fs[1..]) + tail);
      FieldsAreRead(next, fs[1..], tail);
    }
  }

  // Whole files.

  function ComFile(fs: seq<Field>, blob: seq<Byte>, cpl: nat): string
    requires cpl > 0 && forall i :: 0 <= i < |fs| ==> fs[i].pieces != []
  {
    "---- BEGIN SSH2 ENCRYPTED PRIVATE KEY ----" + "\n"
    + (HeaderText(fs)
       + (WrapLines(EncodeChars(blob), cpl) + ("---- END SSH2 ENCRYPTED PRIVATE KEY ----" + "\n")))
  }

  /** Only headers of the name Comment count, and of these the last. */
  lemma LoadOfFields(fs: seq<Field>, blob: seq<Byte>, cpl: nat)
    requires AreValid(fs) && cpl > 0 && blob != []
    ensures Load(ComFile(fs, blob, cpl)) == Success((CommentOf(fs, ""), blob))
  {
    assert !Start().headersDone && Start().comment == "" && Start().body == Body("", []);
    hide Lines, Feed, WrapLines, EncodeChars, NextLine, Clean, HeaderText, CommentOf, Field.Valid, Start;
    var body, end := WrapLines(EncodeChars(blob), cpl), END + "\n";
    var st := Start().(comment := CommentOf(fs, ""));
    CleanMarkers();
    NextLineOfWritten(BEGIN, HeaderText(fs) + (body + end));
    FieldsAreRead(Start(), fs, body + end);
    BodyLines(st, EncodeChars(blob), cpl, end);
    FeedOfEncode([], blob);
    assert [] + blob == blob;
    EndStops(st.(headersDone := true, body := Body("", blob)));
  }

  lemma {:induction false} CommentOfSum(a: seq<Field>, b: seq<Field>, before: string)
    ensures CommentOf(a + b, before) == CommentOf(b, CommentOf(a, before))
    decreases |a|
  {
    if a == [] {
      assert a + b == b;
    } else {
      assert (a + b)[1..] == a[1..] + b;
      CommentOfSum(a[1..], b, if a[0].name == "Comment" then First255(Unquoted(a[0].Value())) else before);
    }
  }

  /** A header of another name may be put anywhere among the others. */
  lemma OtherHeaderIsIgnored(a: seq<Field>, other: Field, b: seq<Field>, blob: seq<Byte>, cpl: nat)
    requires AreValid(a) && AreValid(b) && other.Valid() && other.name != "Comment" && cpl > 0 && blob != []
    ensures other.pieces != [] && Load(ComFile(a + [other] + b, blob, cpl)) == Load(ComFile(a + b, blob, cpl))
  {
    assert AreValid([other]) && AreValid(a + [other] + b) && AreValid(a + b);
    hide ComFile, Load, Field.Valid, AreValid, First255, Unquoted;
    LoadOfFields(a + [other] + b, blob, cpl);
    LoadOfFields(a + b, blob, cpl);
    CommentOfSum(a + [other], b, "");
    CommentOfSum(a, [other], "");
    CommentOfSum(a, b, "");
    assert [other][1..] == [];
  }

  // The blob.

  /** The key that the passphrase gives. */
  function KeyFor(suite: Suite, passphrase: seq<Byte>): seq<Byte> {
    suite.md5(passphrase) + suite.md5(passphrase + suite.md5(passphrase))
  }

  function Encrypted(suite: Suite, passphrase: Option<seq<Byte>>, plain: seq<Byte>): seq<Byte> {
    match passphrase
    case None => plain
    case Some(p) => suite.des3Encrypt(KeyFor(suite, p), [0, 0, 0, 0, 0, 0, 0, 0], plain)
  }

  /** The integers in the order of the file; in it p and q have changed places. */
  function Payload(parts: Parts): seq<Byte>
    requires !parts.EcParts?
  {
    match parts
    case RsaParts(e, n, d, p, q, iqmp) =>
      MpSshcom(e) + (MpSshcom(d) + (MpSshcom(n) + (MpSshcom(iqmp) + (MpSshcom(q) + MpSshcom(p)))))
    case DsaParts(p, q, g, y, x) =>
      Put32(0) + (MpSshcom(p) + (MpSshcom(g) + (MpSshcom(q) + (MpSshcom(y) + MpSshcom(x)))))
  }

  lemma PayloadIsTheirs(parts: Parts)
    requires !parts.EcParts?
    ensures SshCom.Payload(parts) == Payload(parts)
  {
    hide MpSshcom, Put32;
    var ns := Numbers(parts);
    MpsOfSlices(ns, 0); MpsOfSlices(ns, 1); MpsOfSlices(ns, 2); MpsOfSlices(ns, 3); MpsOfSlices(ns, 4);
    assert ns[0..] == ns;
    if parts.RsaParts? {
      MpsOfSlices(ns, 5);
      assert ns[6..] == [] && MpSshcom(parts.p) + [] == MpSshcom(parts.p);
      assert [] + Mps(ns) == Mps(ns);
    } else {
      assert ns[5..] == [] && MpSshcom(parts.x) + [] == MpSshcom(parts.x);
    }
  }

  lemma MpsOfSlices(ns: seq<seq<Byte>>, k: nat)
    requires k < |ns|
    ensures Mps(ns[k..]) == MpSshcom(ns[k]) + Mps(ns[k + 1..])
  {
    assert ns[k..][0] == ns[k] && ns[k..][1..] == ns[k + 1..];
    hide MpSshcom;
  }

  ghost predicate IsTypeOf(keyType: seq<Byte>, parts: Parts) {
    && |keyType| > 16
    && match parts
       case RsaParts(_, _, _, _, _, _) => keyType[..16] == ToBytes("if-modn{sign{rsa")
       case DsaParts(_, _, _, _, _) => keyType[..16] == ToBytes("dl-modp{sign{dsa")
       case EcParts(_, _, _) => false
  }

  function CipherBytes(encrypted: bool): (b: seq<Byte>)
    ensures |b| < 64
  {
    if encrypted then ToBytes("3des-cbc") else ToBytes("none")
  }

  function ComBlob(length: nat, keyType: seq<Byte>, cipher: seq<Byte>, ciphertext: seq<Byte>): seq<Byte> {
    Put32(0x3f6ff9eb) + (Put32(length) + (Str(keyType) + (Str(cipher) + Str(ciphertext))))
  }

  lemma FieldsAreSplit(length: nat, keyType: seq<Byte>, cipher: seq<Byte>, ciphertext: seq<Byte>)
    requires length < TWO_32 && |keyType| < TWO_32 && |cipher| < TWO_32 && |ciphertext| < TWO_32
    ensures ReadFields(ComBlob(length, keyType, cipher, ciphertext)) == Fields(0x3f6ff9eb, keyType, cipher, ciphertext)
  {
    var a, b, c := Str(keyType), Str(cipher), Str(ciphertext);
    hide GetString, GetUint32, Str, Put32;
    assert c + [] == c;
    GetUint32OfPut(0x3f6ff9eb, Put32(length) + (a + (b + c)));
    GetUint32OfPut(length, a + (b + c));
    GetStringOfPut(keyType, b + c);
    GetStringOfPut(cipher, c);
    GetStringOfPut(ciphertext, []);
  }

  lemma TypeIsFound(keyType: seq<Byte>, parts: Parts)
    requires IsTypeOf(keyType, parts)
    ensures ParseType(keyType) == Some(parts.Alg()) && !parts.EcParts?
  {
    assert RSA_PREFIX == "if-modn{sign{rsa" && DSA_PREFIX == "dl-modp{sign{dsa";
    assert ToBytes(DSA_PREFIX)[0] == 'd' as int && ToBytes(RSA_PREFIX)[0] == 'i' as int;
  }

  lemma DecryptOfEncrypted(suite: Suite, passphrase: seq<Byte>, plain: seq<Byte>)
    requires suite.Sound() && |plain| % 8 == 0
    ensures var c := Encrypted(suite, Some(passphrase), plain);
            |c| == |plain| && suite.des3Decrypt(DeriveKey(suite, passphrase), ZeroIv(), c) == plain
  {
    assert ZeroIv() == [0, 0, 0, 0, 0, 0, 0, 0];
    assert DeriveKey(suite, passphrase) == KeyFor(suite, passphrase);
    hide KeyFor, DeriveKey, ZeroIv;
    var k, iv := KeyFor(suite, passphrase), ZeroIv();
    assert suite.des3Decrypt(k, iv, suite.des3Encrypt(k, iv, plain)) == plain;
  }

  lemma BlobOfParts(suite: Suite, parts: Parts, keyType: seq<Byte>, passphrase: Option<seq<Byte>>, pad: seq<Byte>,
                    given: seq<Byte>)
    requires suite.Sound() && parts.Fits() && IsTypeOf(keyType, parts) && (passphrase.Some? ==> given == passphrase.value)
    requires !parts.EcParts? && (passphrase.Some? ==> |Str(Payload(parts)) + pad| % 8 == 0)
    ensures var plain := Str(Payload(parts)) + pad;
            ReadBlob(suite, Fields(0x3f6ff9eb, keyType, CipherBytes(passphrase.Some?), Encrypted(suite, passphrase, plain)), given)
            == Success(parts.Canonicalised().Key())
  {
    var plain := Str(Payload(parts)) + pad;
    TypeIsFound(keyType, parts);
    CipherIsParsed(passphrase.Some?);
    PayloadIsTheirs(parts);
    PlainIsRead(parts, passphrase.Some?, pad);
    if passphrase.Some? {
      DecryptOfEncrypted(suite, passphrase.value, plain);
    }
    assert |plain| >= 4;
    assert ToBytes(CipherName(passphrase.Some?)) == CipherBytes(passphrase.Some?);
    hide ReadPlain, Payload, SshCom.Payload, Str, ToBytes, CipherName, CipherBytes, ParseType, ParseCipher,
         DeriveKey, KeyFor,
         Parts.Canonicalised, Parts.Key, IsTypeOf;
  }

  /**
   * A key in a file with any headers, any type string of its kind, any total length, any padding and lines
   * of any width reads back, with the comment that the headers give.
   */
  lemma ReadOfComFile(suite: Suite, parts: Parts, fs: seq<Field>, length: nat, keyType: seq<Byte>,
                      passphrase: Option<seq<Byte>>, pad: seq<Byte>, cpl: nat, given: seq<Byte>)
    requires suite.Sound() && parts.Fits() && IsTypeOf(keyType, parts) && (passphrase.Some? ==> given == passphrase.value)
    requires AreValid(fs) && cpl > 0 && length < TWO_32 && |keyType| < TWO_32 && !parts.EcParts?
    requires var n := |Str(Payload(parts)) + pad|; n < TWO_32 && (passphrase.Some? ==> n % 8 == 0)
    ensures var blob := ComBlob(length, keyType, CipherBytes(passphrase.Some?),
                                Encrypted(suite, passphrase, Str(Payload(parts)) + pad));
            Read(suite, ComFile(fs, blob, cpl), given)
            == Success(UserKey(parts.Canonicalised().Key(), CommentOf(fs, "")))
  {
    var plain := Str(Payload(parts)) + pad;
    var cipher := CipherBytes(passphrase.Some?);
    var ciphertext := Encrypted(suite, passphrase, plain);
    assert |cipher| < TWO_32;
    if passphrase.Some? {
      DecryptOfEncrypted(suite, passphrase.value, plain);
    }
    assert |ciphertext| < TWO_32 && |keyType| < TWO_32;
    var blob := ComBlob(length, keyType, cipher, ciphertext);
    assert blob != [];
    BlobOfParts(suite, parts, keyType, passphrase, pad, given);
    hide ComBlob, Encrypted, Payload, Str, CipherBytes, ReadFields, ReadBlob, Load, Parts.Canonicalised, Parts.Key,
         CommentOf, ComFile, IsTypeOf, AreValid;
    FieldsAreSplit(length, keyType, cipher, ciphertext);
    LoadOfFields(fs, blob, cpl);
  }

  // The writer's own files are such files.

  /** The lines of a comment: 60 characters of it, then 70 at a time, and a quote behind the last. */
  function CommentPieces(c: string, width: nat): (pieces: seq<string>)
    requires width > 0
    ensures pieces != []
    decreases |c|
  {
    if |c| <= width then [c + "\""] else [c[..width]] + CommentPieces(c[width..], 70)
  }

  function CommentHeader(c: string): Field {
    var pieces := CommentPieces(c, 60);
    Field("Comment", " ", ["\"" + pieces[0]] + pieces[1..])
  }

  lemma {:induction false} FoldedComment(head: string, c: string, width: nat)
    requires width > 0
    ensures Folded(head, CommentPieces(c, width)) == head + FoldComment(c, width)
    decreases |c|
  {
    var pieces := CommentPieces(c, width);
    if |c| <= width {
      assert head + (c + "\"") + "\n" == head + (c + "\"" + "\n");
    } else {
      FoldedComment("", c[width..], 70);
      assert pieces[1..] == CommentPieces(c[width..], 70);
      var more := FoldComment(c[width..], 70);
      assert "" + more == more;
      hide FoldComment, CommentPieces;
      assert head + c[..width] + "\\" + "\n" + more == head + (c[..width] + "\\" + "\n" + more);
    }
  }

  lemma MovedHead(a: string, b: string, pieces: seq<string>)
    requires pieces != []
    ensures Folded(a, [b + pieces[0]] + pieces[1..]) == Folded(a + b, pieces)
  {
    var moved := [b + pieces[0]] + pieces[1..];
    assert moved[1..] == pieces[1..];
    Assoc(a, b, pieces[0]);
  }

  lemma CommentText(c: string)
    ensures CommentHeader(c).Text() == COMMENT + FoldComment(c, 60)
  {
    var pieces := CommentPieces(c, 60);
    assert "Comment" + ":" + " " + "\"" == COMMENT;
    hide Folded, CommentPieces, FoldComment;
    MovedHead("Comment" + ":" + " ", "\"", pieces);
    FoldedComment(COMMENT, c, 60);
  }

  lemma {:induction false} PiecesOfComment(c: string, width: nat)
    requires width > 0 && OneLine(c)
    ensures var pieces := CommentPieces(c, width);
            AreOneLine(pieces) && Concat(pieces) == c + "\"" && pieces[|pieces| - 1] != ""
            && pieces[|pieces| - 1][|pieces[|pieces| - 1]| - 1] == '"'
    decreases |c|
  {
    if |c| <= width {
      assert Concat([c + "\""]) == (c + "\"") + Concat([]) == c + "\"";
    } else {
      var more := CommentPieces(c[width..], 70);
      PiecesOfComment(c[width..], 70);
      assert ([c[..width]] + more)[1..] == more;
      assert c[..width] + (c[width..] + "\"") == c + "\"";
    }
  }

  /** The comment that is written is a header of that name, and it says the comment. */
  lemma CommentHeaderIsValid(c: string)
    requires OneLine(c)
    ensures AreValid([CommentHeader(c)]) && CommentOf([CommentHeader(c)], "") == First255(c)
  {
    var f := CommentHeader(c);
    var v := "\"" + (c + "\"");
    QuotedPieces(c);
    QuotedValue(c);
    hide CommentPieces, CommentHeader, Unquoted, First255, Field.Value, AreOneLine;
    CommentHeaderEnds(f, v);
    hide Field.Valid;
    assert [f][1..] == [] && CommentOf([], First255(c)) == First255(c);
  }

  lemma QuotedValue(c: string)
    ensures Unquoted("\"" + (c + "\"")) == c
  {
    var v := "\"" + (c + "\"");
    assert v[1..|v| - 1] == c;
  }

  lemma QuotedPieces(c: string)
    requires OneLine(c)
    ensures var f := CommentHeader(c);
            && f.name == "Comment" && f.spaces == " " && f.pieces != [] && AreOneLine(f.pieces)
            && f.Value() == "\"" + (c + "\"") && f.pieces[0] != "" && f.pieces[0][0] == '"'
            && var last := f.pieces[|f.pieces| - 1]; last != "" && last[|last| - 1] == '"'
  {
    var f := CommentHeader(c);
    var pieces := CommentPieces(c, 60);
    PiecesOfComment(c, 60);
    hide CommentPieces;
    assert f.pieces[1..] == pieces[1..];
    assert Concat(pieces) == pieces[0] + Concat(pieces[1..]);
    Assoc("\"", pieces[0], Concat(pieces[1..]));
  }

  lemma CommentHeaderEnds(f: Field, v: string)
    requires f.name == "Comment" && f.spaces == " " && f.pieces != [] && AreOneLine(f.pieces)
    requires |v| >= 2 && f.Value() == v && v[|v| - 1] == '"' && f.pieces[0] != "" && f.pieces[0][0] == '"'
    requires var last := f.pieces[|f.pieces| - 1]; last != "" && last[|last| - 1] == '"'
    ensures f.Valid()
  {
    var head := f.name + ":" + f.spaces;
    assert (head + v)[|head + v| - 1] == '"';
    var last := if |f.pieces| == 1 then head + f.pieces[0] else f.pieces[|f.pieces| - 1];
    assert last[|last| - 1] == '"';
  }

  function FullType(rsa: bool): (s: string)
    ensures IsCString(s)
    ensures |s| < 64
  {
    NamesAreNarrow();
    JoinedIsNarrow(RSA_PREFIX, RSA_SUFFIX);
    JoinedIsNarrow(DSA_PREFIX, DSA_SUFFIX);
    if rsa then "if-modn{sign{rsa" + "-pkcs1-sha1},encrypt{rsa-pkcs1v2-oaep}}"
    else "dl-modp{sign{dsa" + "-nist-sha1},dh{plain}}"
  }

  /** The blob that is written: its second number is its own length. */
  function WrittenBlob(suite: Suite, parts: Parts, passphrase: Option<seq<Byte>>, pad: seq<Byte>): seq<Byte>
    requires !parts.EcParts?
  {
    var keyType, cipher := ToBytes(FullType(parts.RsaParts?)), CipherBytes(passphrase.Some?);
    var ciphertext := Encrypted(suite, passphrase, Str(Payload(parts)) + pad);
    ComBlob(|Str(keyType)| + |Str(cipher)| + |Str(ciphertext)| + 8, keyType, cipher, ciphertext)
  }

  lemma NamesAre(parts: Parts, encrypted: bool)
    requires !parts.EcParts?
    ensures ToBytes(TypeName(parts.Alg())) == ToBytes(FullType(parts.RsaParts?))
    ensures ToBytes(CipherName(encrypted)) == CipherBytes(encrypted)
  {
    hide ToBytes;
  }

  /** Random bytes up to a whole block, if the file is encrypted. */
  function Pad(parts: Parts, passphrase: Option<seq<Byte>>, noise: seq<Byte>): (pad: seq<Byte>)
    requires |noise| == 8 && !parts.EcParts?
    ensures |pad| < 8 && pad == (if passphrase.Some? then noise[..|pad|] else [])
    ensures passphrase.Some? ==> |Str(Payload(parts)) + pad| % 8 == 0
  {
    if passphrase.Some? then noise[..PadLength(|Str(Payload(parts))|)] else []
  }

  /** An ECDSA key has no file. */
  lemma WrittenFile(suite: Suite, parts: Parts, comment: string, passphrase: Option<seq<Byte>>, noise: seq<Byte>)
    requires |noise| == 8
    ensures File(suite, parts, comment, passphrase, noise)
         == if parts.EcParts? then None
            else Some(ComFile([CommentHeader(comment)],
                              WrittenBlob(suite, parts, passphrase, Pad(parts, passphrase, noise)), 70))
  {
    if parts.EcParts? {
    } else {
      hide *;
      BlobOfFile(suite, parts, comment, passphrase, noise);
      BlobIsWritten(suite, parts, passphrase, noise);
      TextIs(comment, WrittenBlob(suite, parts, passphrase, Pad(parts, passphrase, noise)));
    }
  }

  lemma BlobOfFile(suite: Suite, parts: Parts, comment: string, passphrase: Option<seq<Byte>>, noise: seq<Byte>)
    requires |noise| == 8 && !parts.EcParts?
    ensures File(suite, parts, comment, passphrase, noise)
         == Some(FileOf(comment, SshCom.Blob(ToBytes(TypeName(parts.Alg())), ToBytes(CipherName(passphrase.Some?)),
                                             Ciphertext(suite, Str(SshCom.Payload(parts)), passphrase, noise))))
  {
    hide SshCom.Payload, Str, ToBytes, TypeName, CipherName, Ciphertext, SshCom.Blob, FileOf;
  }

  lemma BlobIsWritten(suite: Suite, parts: Parts, passphrase: Option<seq<Byte>>, noise: seq<Byte>)
    requires |noise| == 8 && !parts.EcParts?
    ensures SshCom.Blob(ToBytes(TypeName(parts.Alg())), ToBytes(CipherName(passphrase.Some?)),
                        Ciphertext(suite, Str(SshCom.Payload(parts)), passphrase, noise))
         == WrittenBlob(suite, parts, passphrase, Pad(parts, passphrase, noise))
  {
    hide ComBlob, Payload, SshCom.Payload, Str, ToBytes, TypeName, FullType, CipherName, CipherBytes, Ciphertext, Encrypted,
         SshCom.Blob;
    PayloadIsTheirs(parts);
    NamesAre(parts, passphrase.Some?);
    var plain := Str(Payload(parts));
    CiphertextIs(suite, plain, passphrase, noise);
    BlobIs(ToBytes(TypeName(parts.Alg())), ToBytes(CipherName(passphrase.Some?)), Ciphertext(suite, plain, passphrase, noise));
  }

  lemma CiphertextIs(suite: Suite, plain: seq<Byte>, passphrase: Option<seq<Byte>>, noise: seq<Byte>)
    requires |noise| == 8
    ensures var pad := if passphrase.Some? then noise[..PadLength(|plain|)] else [];
            Ciphertext(suite, plain, passphrase, noise) == Encrypted(suite, passphrase, plain + pad)
  {
    assert plain + [] == plain;
    assert ZeroIv() == [0, 0, 0, 0, 0, 0, 0, 0];
  }

  lemma BlobIs(keyType: seq<Byte>, cipher: seq<Byte>, ciphertext: seq<Byte>)
    ensures SshCom.Blob(keyType, cipher, ciphertext)
         == ComBlob(|Str(keyType)| + |Str(cipher)| + |Str(ciphertext)| + 8, keyType, cipher, ciphertext)
  {
    hide Str, Put32;
    Assoc(Str(keyType), Str(cipher), Str(ciphertext));
    Assoc(Put32(MAGIC), Put32(|Str(keyType) + Str(cipher) + Str(ciphertext)| + 8), Str(keyType) + Str(cipher) + Str(ciphertext));
  }

  lemma TextIs(comment: string, blob: seq<Byte>)
    ensures FileOf(comment, blob) == ComFile([CommentHeader(comment)], blob, 70)
  {
    var f := CommentHeader(comment);
    CommentText(comment);
    assert [f][1..] == [] && HeaderText([f]) == f.Text() + "" == f.Text();
    hide CommentHeader, Field.Text, FoldComment, WrapLines, EncodeChars, HeaderText;
    var head, body, end := COMMENT + FoldComment(comment, 60), WrapLines(EncodeChars(blob), 70), END + "\n";
    Assoc(BEGIN + "\n", head, body);
    Assoc(BEGIN + "\n", head + body, end);
    Assoc(head, body, end);
  }
}
