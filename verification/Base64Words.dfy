/** The 24-bit words of base64: cut into four digits of six bits, or into three octets. */
module Base64Words {
  lemma TopDigits(v: int)
    requires 0 <= v < 0x1000
    ensures v / 64 % 64 * 64 + v % 64 == v
  {
  }

  lemma LowDigits(q: int, r: int)
    requires 0 <= r < 0x1000
    ensures (q * 0x1000 + r) / 64 % 64 == r / 64 && (q * 0x1000 + r) % 64 == r % 64
  {
    var s := r / 64;
    assert (q * 0x1000 + r) / 64 == q * 64 + s;
  }

  lemma FourDigits(word: int)
    requires 0 <= word < 0x100_0000
    ensures (word / 0x40000 % 64 * 64 + word / 0x1000 % 64) * 0x1000 + word % 0x1000 == word
    ensures word / 64 % 64 * 64 + word % 64 == word % 0x1000
  {
    TopDigits(word / 0x1000);
    assert word / 0x40000 == word / 0x1000 / 64;
    TopDigits(word % 0x1000);
    LowDigits(word / 0x1000, word % 0x1000);
  }

  lemma WholeMultiples(k: int)
    ensures (64 * k) % 64 == 0 && (0x1000 * k) % 0x1000 == 0
  {
  }

  /** FourDigits, for digits that have names. */
  lemma FourDigitsAlone(word: int, t0: int, t1: int, t2: int)
    requires 0 <= word < 0x100_0000 && word % 64 == 0
    requires t0 == word / 0x40000 % 64 && t1 == word / 0x1000 % 64 && t2 == word / 64 % 64
    ensures ((t0 * 64 + t1) * 64 + t2) * 64 == word
  {
    FourDigits(word);
  }

  lemma OneByteWord(b0: int)
    requires 0 <= b0 < 256
    ensures var w := b0 * 0x10000; (w / 0x40000 % 64 * 64 + w / 0x1000 % 64) * 0x1000 == w
  {
    var w := b0 * 0x10000;
    FourDigits(w);
    WholeMultiples(b0 * 16);
  }

  lemma TwoByteWord(b0: int, b1: int)
    requires 0 <= b0 < 256 && 0 <= b1 < 256
    ensures var w := b0 * 0x10000 + b1 * 0x100;
            ((w / 0x40000 % 64 * 64 + w / 0x1000 % 64) * 64 + w / 64 % 64) * 64 == w
  {
    var w := b0 * 0x10000 + b1 * 0x100;
    WholeMultiples(b0 * 0x400 + b1 * 4);
    FourDigitsAlone(w, w / 0x40000 % 64, w / 0x1000 % 64, w / 64 % 64);
  }

  lemma Octets(b0: int, b1: int, b2: int)
    requires 0 <= b0 < 256 && 0 <= b1 < 256 && 0 <= b2 < 256
    ensures var w := b0 * 0x10000 + b1 * 0x100 + b2;
            w / 0x10000 % 0x100 == b0 && w / 0x100 % 0x100 == b1 && w % 0x100 == b2
  {
  }
}
