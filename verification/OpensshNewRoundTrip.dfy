/** Importing an exported new-format file gives the key and the comment back. */
module OpensshNewRoundTrip {
  import opened Bytes
  import opened Marshal
  import opened Base64
  import opened KeyText
  import opened Keys
  import opened OpensshNew

  lemma CleanMarkers()
    ensures Clean(BEGIN)
    ensures Clean(END)
  {
  }

  lemma BodyLine(body: Body, line: string, tail: string)
    requires body.Valid() && AllBase64(line)
    ensures Lines(body, line + "\n" + tail)
         == match Feed(body, line)
            case None => Failure(BadBase64)
            case Some(next) => Lines(next, tail)
  {
    Base64IsClean(line);
    NextLineOfWritten(line, tail);
    hide NextLine, Feed;
    assert END[0] == '-';
  }

  lemma {:induction false} BodyLines(body: Body, s: string, cpl: nat, tail: string)
    requires body.Valid() && AllBase64(s) && cpl > 0
    ensures Lines(body, WrapLines(s, cpl) + tail)
         == match Feed(body, s)
            case None => Failure(BadBase64)
            case Some(next) => Lines(next, tail)
    decreases |s|
  {
    hide Lines, Feed;
    if |s| <= cpl {
      BodyLine(body, s, tail);
    } else {
      var rest := WrapLines(s[cpl..], cpl);
      Assoc(s[..cpl] + "\n", rest, tail);
      BodyLine(body, s[..cpl], rest + tail);
      FeedTwoLines(body, s[..cpl], s[cpl..]);
      assert s[..cpl] + s[cpl..] == s;
      match Feed(body, s[..cpl])
      case None =>
      case Some(next) => BodyLines(next, s[cpl..], cpl, tail);
    }
  }

  /** The text layer: the blob that was encoded is the blob that is loaded. */
  lemma LoadBlobOfText(blob: seq<Byte>, cpl: nat)
    requires blob != [] && cpl > 0
    ensures LoadBlob(BEGIN + "\n" + WrapLines(EncodeChars(blob), cpl) + (END + "\n")) == Success(blob)
  {
    hide Lines, Feed, WrapLines, EncodeChars, NextLine, Clean;
    var body, end := WrapLines(EncodeChars(blob), cpl), END + "\n";
    CleanMarkers();
    Assoc(BEGIN + "\n", body, end);
    NextLineOfWritten(BEGIN, body + end);
    BodyLines(Body("", []), EncodeChars(blob), cpl, end);
    FeedOfEncode([], blob);
    assert [] + blob == blob;
    EndStops(Body("", blob));
  }

  lemma EndStops(body: Body)
    requires body.Valid()
    ensures Lines(body, END + "\n") == Success(body)
  {
    hide NextLine, Clean;
    CleanMarkers();
    assert END + "\n" == END + "\n" + "";
    NextLineOfWritten(END, "");
  }

  // The container.

  lemma CipherNames()
    ensures ParseCipher(ToBytes("none")) == Some(Plain)
    ensures ParseCipher(ToBytes("aes256-ctr")) == Some(Aes256Ctr)
  {
    assert |ToBytes("none")| != |ToBytes("aes256-cbc")|;
    assert ToBytes("aes256-ctr")[8] != ToBytes("aes256-cbc")[8];
  }

  lemma ReadPreamble(magic: seq<Byte>, cipher: seq<Byte>, kdf: seq<Byte>, options: seq<Byte>, nkeys: nat,
                     pub: seq<Byte>, priv: seq<Byte>)
    requires 0 !in magic && nkeys < TWO_32
    requires |cipher| < TWO_32 && |kdf| < TWO_32 && |options| < TWO_32 && |pub| < TWO_32 && |priv| < TWO_32
    ensures ReadFields(magic + [0] + (Str(cipher) + Str(kdf) + Str(options)) + Put32(nkeys) + Str(pub) + Str(priv))
         == Fields(magic, cipher, false, kdf, false, options, nkeys, false, priv, false)
  {
    hide GetString, GetAsciz, GetUint32, Str, Put32, ToBytes;
    var m := magic + [0];
    var a, b, c, n, p, q := Str(cipher), Str(kdf), Str(options), Put32(nkeys), Str(pub), Str(priv);
    assert q + [] == q;
    var t4 := p + q;
    var t3 := n + t4;
    var t2 := c + t3;
    var t1 := b + t2;
    var t0 := a + t1;
    assert m + (a + b + c) + n + p + q == m + t0;
    GetAscizOfPut(magic, t0);
    GetStringOfPut(cipher, t1);
    GetStringOfPut(kdf, t2);
    GetStringOfPut(options, t3);
    GetUint32OfPut(nkeys, t4);
    GetStringOfPut(pub, q);
    GetStringOfPut(priv, []);
  }

  lemma MagicHasNoNul()
    ensures 0 !in ToBytes(MAGIC)
  {
  }

  /** The loader sees the cipher, the salt and rounds, and the private string that were written. */
  lemma ContainerOfBlob(pub: seq<Byte>, priv: seq<Byte>, encrypted: bool, salt: seq<Byte>)
    requires |pub| < TWO_32 && |priv| < TWO_32 && |salt| == 16
    ensures ParseContainer(Blob(pub, priv, encrypted, salt))
         == Success(if encrypted then Container(Aes256Ctr, Bcrypt(salt, ROUNDS), priv) else Container(Plain, KdfNone, priv))
  {
    CipherNames();
    MagicHasNoNul();
    if encrypted {
      ReadPreamble(ToBytes(MAGIC), ToBytes("aes256-ctr"), ToBytes("bcrypt"), Str(salt) + Put32(ROUNDS), 1, pub, priv);
      BcryptOptions(salt, ROUNDS);
    } else {
      ReadPreamble(ToBytes(MAGIC), ToBytes("none"), ToBytes("none"), [], 1, pub, priv);
    }
    hide ReadFields, ParseCipher, ParseKdf, ToBytes, Str, Put32;
  }

  lemma BcryptOptions(salt: seq<Byte>, rounds: nat)
    requires |salt| < TWO_32 && rounds < TWO_32
    ensures ParseKdf(ToBytes("bcrypt"), false, Str(salt) + Put32(rounds)) == Success(Bcrypt(salt, rounds))
  {
    assert |ToBytes("none")| != |ToBytes("bcrypt")|;
    hide GetString, GetUint32, ToBytes;
    GetStringOfPut(salt, Put32(rounds));
    assert Put32(rounds) + [] == Put32(rounds);
    GetUint32OfPut(rounds, []);
  }

  // The private section and its padding.

  /** Bytes that count up from `expected`, modulo 256. */
  ghost predicate CountsUpFrom(rest: seq<Byte>, expected: Byte) {
    forall i :: 0 <= i < |rest| ==> rest[i] == (expected + i) % 256
  }

  /** The reader's loop accepts exactly the bytes 1, 2, 3, ... modulo 256. */
  lemma {:induction false} PaddingIsRamp(rest: seq<Byte>, expected: Byte)
    ensures IsPadding(rest, expected) <==> CountsUpFrom(rest, expected)
    decreases |rest|
  {
    if rest != [] {
      CountsUpTail(rest, expected);
      hide CountsUpFrom;
      PaddingIsRamp(rest[1..], (expected as int + 1) % 256);
    }
  }

  lemma CountsUpTail(rest: seq<Byte>, expected: Byte)
    requires rest != []
    ensures CountsUpFrom(rest, expected)
       <==> rest[0] == expected && CountsUpFrom(rest[1..], (expected as int + 1) % 256)
  {
    var next: Byte := (expected as int + 1) % 256;
    if rest[0] == expected && CountsUpFrom(rest[1..], next) {
      forall i | 0 <= i < |rest|
        ensures rest[i] == (expected + i) % 256
      {
        if i > 0 {
          ModStep(expected, i);
          assert rest[1..][i - 1] == rest[i];
        }
      }
    }
    if CountsUpFrom(rest, expected) {
      forall i | 0 <= i < |rest| - 1
        ensures rest[1..][i] == (next + i) % 256
      {
        ModStep(expected, i + 1);
        assert rest[i + 1] == (expected + (i + 1)) % 256;
      }
    }
  }

  lemma ModStep(e: int, i: int)
    requires 0 <= e < 256 && i > 0
    ensures ((e + 1) % 256 + (i - 1)) % 256 == (e + i) % 256
  {
  }

  lemma RampIsPadding(n: nat)
    requires n < 256
    ensures IsPadding(Ramp(n), 1)
  {
    PaddingIsRamp(Ramp(n), 1);
  }

  /** No shorter padding of at least one byte fills up a block. */
  lemma PadIsLeast(len: nat, n: nat)
    requires 1 <= n && (len + n) % 16 == 0
    ensures PadLength(len) <= n
  {
  }

  lemma PrivateOfSection(reg: Registry, key: SshKey, comment: seq<Byte>, checkint: nat)
    requires reg.SelfDelimiting(key) && |reg.id(key)| < TWO_32 && |comment| < TWO_32 && checkint < TWO_32
    ensures ParsePrivate(reg, Padded(Section(reg, key, comment, checkint))) == Success((key, comment))
  {
    var section := Section(reg, key, comment, checkint);
    var pad := Ramp(PadLength(|section|));
    RampIsPadding(PadLength(|section|));
    hide GetString, GetUint32, Str, Put32, IsPadding, Ramp, PadLength;
    var c, name, blob, com := Put32(checkint), Str(reg.id(key)), reg.blob(key), Str(comment);
    var t3 := com + pad;
    var t2 := blob + t3;
    var t1 := name + t2;
    assert c + c + name + blob + com + pad == c + (c + t1);
    GetUint32OfPut(checkint, c + t1);
    GetUint32OfPut(checkint, t1);
    GetStringOfPut(reg.id(key), t2);
    assert reg.parse(reg.id(key), Input(blob + t3, false)) == (Some(key), Input(t3, false));
    GetStringOfPut(comment, pad);
  }

  lemma DecryptOfContainer(suite: Suite, section: seq<Byte>, passphrase: Option<seq<Byte>>, salt: seq<Byte>, given: seq<Byte>)
    requires suite.Sound() && (passphrase.Some? ==> given == passphrase.value)
    ensures var priv := PrivateString(suite, section, passphrase, salt);
            && |priv| == |Padded(section)|
            && Decrypt(suite, if passphrase.Some? then Container(Aes256Ctr, Bcrypt(salt, ROUNDS), priv)
                              else Container(Plain, KdfNone, priv), given) == Success(Padded(section))
  {
    hide Padded;
    var padded := Padded(section);
    if passphrase.Some? {
      var keybuf := suite.bcrypt(given, salt, ROUNDS);
      assert suite.aes256CtrDecrypt(keybuf, suite.aes256CtrEncrypt(keybuf, padded)) == padded;
    }
  }

  lemma TextOfBytes(s: string)
    requires IsCString(s)
    ensures CString(ToText(ToBytes(s))) == s
  {
    assert ToText(ToBytes(s)) == s;
    FindIs(s, '\0', |s|);
    assert s[..|s|] == s;
  }

  lemma ReadFromParts(suite: Suite, reg: Registry, t: string, given: seq<Byte>, blob: seq<Byte>, c: Container,
                      section: seq<Byte>, key: SshKey, comment: seq<Byte>)
    requires LoadBlob(t) == Success(blob) && ParseContainer(blob) == Success(c)
    requires Decrypt(suite, c, given) == Success(section)
    requires ParsePrivate(reg, section) == Success((key, comment))
    ensures Read(suite, reg, t, given) == Success(UserKey(key, CString(ToText(comment))))
  {
    hide LoadBlob, ParseContainer, Decrypt, ParsePrivate, CString, ToText;
  }

  /**
   * For every key whose blob is self-delimiting and every comment, with or without a passphrase: reading
   * the exported file gives back the key and the comment. The length limits are those put_string asserts.
   */
  lemma ReadOfFile(suite: Suite, reg: Registry, user: UserKey, passphrase: Option<seq<Byte>>,
                   salt: seq<Byte>, checkint: nat, given: seq<Byte>)
    requires suite.Sound() && reg.SelfDelimiting(user.key) && IsCString(user.comment)
    requires |salt| == 16 && checkint < TWO_32
    requires |user.key.pub| < TWO_32 && |reg.id(user.key)| < TWO_32 && |user.comment| < TWO_32
    requires |Padded(Section(reg, user.key, ToBytes(user.comment), checkint))| < TWO_32
    requires passphrase.Some? ==> given == passphrase.value
    ensures Read(suite, reg, File(suite, reg, user, passphrase, salt, checkint), given) == Success(user)
  {
    var comment := ToBytes(user.comment);
    var section := Section(reg, user.key, comment, checkint);
    var priv := PrivateString(suite, section, passphrase, salt);
    var blob := Blob(user.key.pub, priv, passphrase.Some?, salt);
    assert File(suite, reg, user, passphrase, salt, checkint)
        == BEGIN + "\n" + WrapLines(EncodeChars(blob), 64) + (END + "\n");
    assert blob != [];
    hide *;
    DecryptOfContainer(suite, section, passphrase, salt, given);
    PrivateOfSection(reg, user.key, comment, checkint);
    ContainerOfBlob(user.key.pub, priv, passphrase.Some?, salt);
    LoadBlobOfText(blob, 64);
    TextOfBytes(user.comment);
    var c := if passphrase.Some? then Container(Aes256Ctr, Bcrypt(salt, ROUNDS), priv) else Container(Plain, KdfNone, priv);
    ReadFromParts(suite, reg, File(suite, reg, user, passphrase, salt, checkint), given, blob, c,
                  Padded(section), user.key, comment);
  }
}
