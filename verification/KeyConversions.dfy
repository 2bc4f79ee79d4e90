/** Converting a key from format to format, as the converter's own tests do. */
module KeyConversions {
  import opened Bytes
  import opened Keys
  import New = OpensshNew
  import NewImport = OpensshNewImport
  import Pem = OpensshPem
  import PemImport = OpensshPemImport
  import Com = SshCom
  import ComRoundTrip = SshComRoundTrip
  import ComImport = SshComImport
  import Blobs = OpensshKeyBlobs

  /** One export and import, with the passphrase and the random bytes that were used. */
  datatype Hop =
    | ToPem(passphrase: Option<seq<Byte>>, iv: seq<Byte>)
    | ToNew(passphrase: Option<seq<Byte>>, salt: seq<Byte>, checkint: nat)
    | ToSshCom(passphrase: Option<seq<Byte>>, noise: seq<Byte>)

  predicate ValidHop(h: Hop) {
    match h
    case ToPem(_, iv) => |iv| == 8
    case ToNew(_, salt, checkint) => |salt| == 16 && checkint < TWO_32
    case ToSshCom(_, noise) => |noise| == 8
  }

  const LIMIT := 0x100_0000

  /** A comment that every format can hold: one line of narrow characters. */
  ghost predicate ValidComment(c: string) {
    IsCString(c) && ComRoundTrip.OneLine(c) && |c| <= LIMIT
  }

  /** A prefix of the comment, or the one that the PEM reader makes up. */
  lemma CommentsStayValid(c: string)
    requires ValidComment(c)
    ensures ValidComment(Com.Truncate(c)) && ValidComment(Pem.COMMENT)
  {
  }

  lemma {:induction false} StrsSize(ss: seq<seq<Byte>>)
    requires forall i :: 0 <= i < |ss| ==> |ss[i]| <= LIMIT
    ensures |Strs(ss)| <= |ss| * (LIMIT + 4)
  {
    if ss != [] {
      StrsSize(ss[1..]);
    }
  }

  lemma PublicIsSmall(parts: Parts)
    requires parts.Fits()
    ensures |parts.Key().pub| <= 5 * (LIMIT + 4)
  {
    hide Strs, ToBytes, Parts.PrivateBlob;
    if parts.RsaParts? {
      StrsSize([ToBytes("ssh-rsa"), parts.e, parts.n]);
    } else if parts.DsaParts? {
      StrsSize([ToBytes("ssh-dss"), parts.dp, parts.dq, parts.g, parts.y]);
    } else {
      StrsSize([ToBytes(parts.curve.SshId()), ToBytes(parts.curve.Name()), parts.point]);
    }
  }

  lemma StringsAreSmall(parts: Parts)
    requires parts.Fits()
    ensures |Blobs.StringsOf(parts)| <= 6
    ensures forall i :: 0 <= i < |Blobs.StringsOf(parts)| ==> |Blobs.StringsOf(parts)[i]| <= LIMIT
  {
    hide ToBytes;
  }

  lemma BlobIsSmall(checks: Blobs.Checks, parts: Parts)
    requires parts.Fits()
    ensures |Blobs.Standard(checks).blob(parts.Key())| <= 6 * (LIMIT + 4)
    ensures |Blobs.Standard(checks).id(parts.Key())| <= 19
  {
    Blobs.IdsDiffer();
    Blobs.OpenStringsOfParts(parts);
    StringsAreSmall(parts);
    StrsSize(Blobs.StringsOf(parts));
    hide Strs, Blobs.StringsOf, Blobs.OpenStrings, Parts.PublicBlob, Parts.PrivateBlob, Blobs.AlgId;
  }

  /** What the new format writes for a key fits into its length fields. */
  lemma KeyIsSmall(checks: Blobs.Checks, parts: Parts, comment: seq<Byte>, checkint: nat)
    requires parts.Fits() && |comment| <= LIMIT
    ensures |parts.Key().pub| < TWO_32 && |Blobs.Standard(checks).id(parts.Key())| < TWO_32
    ensures |New.Padded(New.Section(Blobs.Standard(checks), parts.Key(), comment, checkint))| < TWO_32
  {
    PublicIsSmall(parts);
    BlobIsSmall(checks, parts);
    hide New.Padded, Parts.Key, Blobs.Standard, Put32;
  }

  /**
   * A valid key with canonical integers goes through any formats in any order unchanged, with or without
   * passphrases; its comment too, unless the PEM format, which has none, is among them. Only an
   * ECDSA key is refused, and only by the ssh.com format.
   */
  method ConvertThrough(suite: Suite, checks: Blobs.Checks, user: UserKey, ghost parts: Parts, hops: seq<Hop>)
    returns (r: Option<UserKey>)
    requires suite.Sound() && parts.Fits() && parts.IsCanonical() && user.key == parts.Key() && checks.Accepts(parts)
    requires ValidComment(user.comment) && forall i :: 0 <= i < |hops| ==> ValidHop(hops[i])
    ensures r.None? <==> parts.EcParts? && exists i :: 0 <= i < |hops| && hops[i].ToSshCom?
    ensures r.Some? ==> r.value.key == user.key
    ensures r.Some? && |user.comment| <= 255 && (forall i :: 0 <= i < |hops| ==> !hops[i].ToPem?) ==> r.value == user
  {
    hide ValidComment, ValidHop, Suite.Sound, Parts.Key, Parts.IsCanonical, Parts.Within;
    var now := user;
    var k := 0;
    while k < |hops|
      invariant 0 <= k <= |hops| && now.key == user.key && ValidComment(now.comment)
      invariant parts.EcParts? ==> forall i :: 0 <= i < k ==> !hops[i].ToSshCom?
      invariant |user.comment| <= 255 && (forall i :: 0 <= i < k ==> !hops[i].ToPem?) ==> now == user
    {
      var next := Convert(suite, checks, now, parts, hops[k]);
      if next.None? {
        return None;
      }
      now := next.value;
      k := k + 1;
    }
    r := Some(now);
  }

  method Convert(suite: Suite, checks: Blobs.Checks, user: UserKey, ghost parts: Parts, hop: Hop)
    returns (r: Option<UserKey>)
    requires suite.Sound() && parts.Fits() && parts.IsCanonical() && user.key == parts.Key() && checks.Accepts(parts)
    requires ValidComment(user.comment) && ValidHop(hop)
    ensures r.None? <==> parts.EcParts? && hop.ToSshCom?
    ensures r.Some? ==> r.value.key == user.key && ValidComment(r.value.comment)
    ensures r.Some? && |user.comment| <= 255 && !hop.ToPem? ==> r.value == user
  {
    CommentsStayValid(user.comment);
    assert IsCString(user.comment) && ComRoundTrip.OneLine(user.comment);
    assert forall i :: 0 <= i < |user.comment| ==> user.comment[i] as int < 256;
    assert |user.comment| <= LIMIT;
    KeyIsCanonical(parts);
    hide ValidComment, Parts.Key, Parts.Canonicalised, Parts.IsCanonical, Suite.Sound, Parts.Within, Com.Truncate;
    match hop {
      case ToPem(passphrase, iv) =>
        var read := PemImport.ExportAndImport(suite, user.key, parts, passphrase, iv);
        r := Some(read.value);
      case ToNew(passphrase, salt, checkint) =>
        Blobs.StandardIsSelfDelimiting(checks, parts);
        KeyIsSmall(checks, parts, ToBytes(user.comment), checkint);
        var read := NewImport.ExportAndImport(suite, Blobs.Standard(checks), user, passphrase, salt, checkint);
        r := Some(read.value);
      case ToSshCom(passphrase, noise) =>
        var read := ComImport.ExportAndImport(suite, user, parts, passphrase, noise);
        r := if read.None? then None else Some(read.value.value);
    }
  }
}
