/** Key files as text: the line reader shared by the three loaders, and hexadecimal. */
module KeyText {
  import opened Bytes
  import opened Base64

  /** A C string ends at its first NUL. */
  function CString(s: string): (c: string)
    ensures |c| <= |s|
  {
    s[..Find(s, '\0')]
  }

  /** get_chomped_line: up to the newline, without a carriage return before it. */
  function ChompedLine(t: string): (r: (string, string))
    ensures |r.1| <= |t|
    ensures t != "" ==> |r.1| < |t|
  {
    var n := Find(t, '\n');
    var line := if n > 0 && t[n - 1] == '\r' then t[..n - 1] else t[..n];
    (line, if n < |t| then t[n + 1..] else "")
  }

  /** bsgetline. */
  function NextLine(t: string): (r: (string, string))
    ensures |r.1| <= |t|
    ensures t != "" ==> |r.1| < |t|
  {
    (CString(ChompedLine(t).0), ChompedLine(t).1)
  }

  /** The lines of a text. At its end bsgetline goes on answering empty lines, and no error. */
  function LinesOf(t: string): (ls: seq<string>)
    ensures |ls| <= |t|
    decreases |t|
  {
    if t == "" then [] else [NextLine(t).0] + LinesOf(NextLine(t).1)
  }

  /** A line that comes back from a file exactly as it was written. */
  ghost predicate Clean(line: string) {
    && (forall i :: 0 <= i < |line| ==> line[i] != '\n' && line[i] != '\0')
    && (line != "" ==> line[|line| - 1] != '\r')
  }

  lemma NextLineOfWritten(line: string, tail: string)
    requires Clean(line)
    ensures NextLine(line + "\n" + tail) == (line, tail)
  {
    var t := line + "\n" + tail;
    FindIs(t, '\n', |line|);
    assert t[..|line|] == line && t[|line| + 1..] == tail;
    FindIs(line, '\0', |line|);
    assert line[..|line|] == line;
  }

  lemma Base64IsClean(line: string)
    requires AllBase64(line)
    ensures Clean(line)
  {
  }

  /** A text and a position in it. */
  class TextSource {
    const text: string
    var pos: nat

    ghost predicate Valid()
      reads this
    {
      pos <= |text|
    }

    ghost function Rest(): string
      requires Valid()
      reads this
    {
      text[pos..]
    }

    constructor (text: string)
      ensures Valid() && Rest() == text
    {
      this.text := text;
      pos := 0;
    }

    method GetLine() returns (line: string)
      requires Valid()
      modifies this
      ensures Valid() && (line, Rest()) == NextLine(old(Rest()))
    {
      var t := text[pos..];
      var n := Find(t, '\n');
      line := CString(ChompedLine(t).0);
      if n < |t| {
        assert text[pos + n + 1..] == t[n + 1..];
        pos := pos + n + 1;
      } else {
        pos := |text|;
      }
    }

    method Remaining() returns (n: nat)
      requires Valid()
      ensures n == |Rest()|
    {
      n := |text| - pos;
    }
  }

  // Hexadecimal, as "%02X" prints it and "%2x" reads it.

  function HexDigit(v: int): (c: char)
    requires 0 <= v < 16
  {
    if v < 10 then (v + 48) as char else (v + 55) as char
  }

  function HexValue(c: char): (v: Option<int>)
    ensures v.Some? ==> 0 <= v.value < 16
  {
    if '0' <= c <= '9' then Some(c as int - 48)
    else if 'A' <= c <= 'F' then Some(c as int - 55)
    else if 'a' <= c <= 'f' then Some(c as int - 87)
    else None
  }

  function Hex(b: seq<Byte>): (s: string)
    ensures |s| == 2 * |b|
    ensures forall i :: 0 <= i < |s| ==> HexValue(s[i]).Some?
  {
    if b == [] then "" else [HexDigit(b[0] / 16), HexDigit(b[0] % 16)] + Hex(b[1..])
  }

  /** `n` bytes from pairs of hex digits, and what follows them; None when a pair does not start with a digit. */
  function ReadHex(s: string, n: nat): (r: Option<(seq<Byte>, string)>)
    ensures r.Some? ==> |r.value.0| == n
    decreases n
  {
    if n == 0 then Some(([], s))
    else if |s| < 2 || HexValue(s[0]).None? then None
    else
      var hi, lo := HexValue(s[0]).value, HexValue(s[1]);
      var byte: Byte := if lo.Some? then hi * 16 + lo.value else hi;
      match ReadHex(s[2..], n - 1)
      case None => None
      case Some((bytes, rest)) => Some(([byte] + bytes, rest))
  }

  lemma {:induction false} ReadHexOfHex(b: seq<Byte>)
    ensures ReadHex(Hex(b), |b|) == Some((b, ""))
  {
    if b != [] {
      var s := Hex(b);
      assert s[2..] == Hex(b[1..]);
      ReadHexOfHex(b[1..]);
      assert b == [b[0]] + b[1..];
    }
  }
}
