/**
 The base64 texts of 64-byte signatures. 86 characters spell 516 bits and decoding drops the
 last four, so every signature has exactly sixteen spellings.
 */
module Base64 {
  import opened Sets

  predicate IsBase64Char(c: char) {
    'A' <= c <= 'Z' || 'a' <= c <= 'z' || '0' <= c <= '9' || c == '+' || c == '/'
  }

  /** `^[A-Za-z0-9+/]{86}==$` */
  predicate IsSignature(s: string) {
    |s| == 88 && s[86] == '=' && s[87] == '=' && forall k :: 0 <= k < 86 ==> IsBase64Char(s[k])
  }

  /** The six bits a character stands for; 64 for other characters. */
  function Sextet(c: char): nat {
    if 'A' <= c <= 'Z' then (c - 'A') as nat
    else if 'a' <= c <= 'z' then 26 + (c - 'a') as nat
    else if '0' <= c <= '9' then 52 + (c - '0') as nat
    else if c == '+' then 62 else if c == '/' then 63 else 64
  }

  function Letter(n: nat): (c: char)
    requires n < 64
    ensures IsBase64Char(c) && Sextet(c) == n
  {
    if n < 26 then 'A' + n as char
    else if n < 52 then 'a' + (n - 26) as char
    else if n < 62 then '0' + (n - 52) as char
    else if n == 62 then '+' else '/'
  }

  lemma SextetsDiffer(c: char, d: char)
    requires IsBase64Char(c) && IsBase64Char(d) && Sextet(c) == Sextet(d)
    ensures c == d && Sextet(c) < 64
  {
  }

  /** Every four characters give three bytes. */
  function ByteAt(s: string, i: nat): nat
    requires IsSignature(s) && i < 64
  {
    var first := i / 3 * 4;
    if i % 3 == 0 then Sextet(s[first]) * 4 + Sextet(s[first + 1]) / 16
    else if i % 3 == 1 then Sextet(s[first + 1]) % 16 * 16 + Sextet(s[first + 2]) / 4
    else Sextet(s[first + 2]) % 4 * 64 + Sextet(s[first + 3])
  }

  /** `Buffer.from(s, "base64")` */
  function Decode(s: string): (bytes: seq<nat>)
    requires IsSignature(s)
    ensures |bytes| == 64
  {
    seq(64, i requires 0 <= i < 64 => ByteAt(s, i))
  }

  /** The texts agree but for the four bits that no byte holds. */
  predicate SpellAlike(s: string, t: string)
    requires IsSignature(s) && IsSignature(t)
  {
    s[..85] == t[..85] && Sextet(s[85]) / 16 == Sextet(t[85]) / 16
  }

  lemma GroupBytes(s: string, j: nat)
    requires IsSignature(s) && j < 21
    ensures ByteAt(s, 3 * j) == Sextet(s[4 * j]) * 4 + Sextet(s[4 * j + 1]) / 16
    ensures ByteAt(s, 3 * j + 1) == Sextet(s[4 * j + 1]) % 16 * 16 + Sextet(s[4 * j + 2]) / 4
    ensures ByteAt(s, 3 * j + 2) == Sextet(s[4 * j + 2]) % 4 * 64 + Sextet(s[4 * j + 3])
  {
    assert 3 * j / 3 == j && 3 * j % 3 == 0;
    assert (3 * j + 1) / 3 == j && (3 * j + 1) % 3 == 1;
    assert (3 * j + 2) / 3 == j && (3 * j + 2) % 3 == 2;
  }

  /** Three bytes hold four characters. */
  lemma GroupDecodes(s: string, t: string, j: nat)
    requires IsSignature(s) && IsSignature(t) && j < 21
    requires ByteAt(s, 3 * j) == ByteAt(t, 3 * j)
    requires ByteAt(s, 3 * j + 1) == ByteAt(t, 3 * j + 1)
    requires ByteAt(s, 3 * j + 2) == ByteAt(t, 3 * j + 2)
    ensures s[4 * j] == t[4 * j] && s[4 * j + 1] == t[4 * j + 1]
    ensures s[4 * j + 2] == t[4 * j + 2] && s[4 * j + 3] == t[4 * j + 3]
  {
    GroupBytes(s, j);
    GroupBytes(t, j);
    SameSextets(s[4 * j], s[4 * j + 1], s[4 * j + 2], s[4 * j + 3], t[4 * j], t[4 * j + 1], t[4 * j + 2], t[4 * j + 3]);
  }

  lemma SameSextets(a: char, b: char, c: char, d: char, a': char, b': char, c': char, d': char)
    requires IsBase64Char(a) && IsBase64Char(b) && IsBase64Char(c) && IsBase64Char(d)
    requires IsBase64Char(a') && IsBase64Char(b') && IsBase64Char(c') && IsBase64Char(d')
    requires Sextet(a) * 4 + Sextet(b) / 16 == Sextet(a') * 4 + Sextet(b') / 16
    requires Sextet(b) % 16 * 16 + Sextet(c) / 4 == Sextet(b') % 16 * 16 + Sextet(c') / 4
    requires Sextet(c) % 4 * 64 + Sextet(d) == Sextet(c') % 4 * 64 + Sextet(d')
    ensures a == a' && b == b' && c == c' && d == d'
  {
    SextetsBound(a, b);
    SextetsBound(c, d);
    SextetsBound(a', b');
    SextetsBound(c', d');
    BitsDetermine(Sextet(a), Sextet(b), Sextet(c), Sextet(d), Sextet(a'), Sextet(b'), Sextet(c'), Sextet(d'));
    SextetsDiffer(a, a');
    SextetsDiffer(b, b');
    SextetsDiffer(c, c');
    SextetsDiffer(d, d');
  }

  lemma BitsDetermine(a: nat, b: nat, c: nat, d: nat, a': nat, b': nat, c': nat, d': nat)
    requires a < 64 && b < 64 && c < 64 && d < 64 && a' < 64 && b' < 64 && c' < 64 && d' < 64
    requires a * 4 + b / 16 == a' * 4 + b' / 16
    requires b % 16 * 16 + c / 4 == b' % 16 * 16 + c' / 4
    requires c % 4 * 64 + d == c' % 4 * 64 + d'
    ensures a == a' && b == b' && c == c' && d == d'
  {
    HighBits(a, b, a', b');
    assert b % 16 == b' % 16 && c / 4 == c' / 4;
    assert c % 4 == c' % 4 && d == d';
  }

  lemma CharacterDecodes(s: string, t: string, k: nat)
    requires IsSignature(s) && IsSignature(t) && Decode(s) == Decode(t) && k < 84
    ensures s[k] == t[k]
  {
    var j := k / 4;
    assert Decode(s)[3 * j] == Decode(t)[3 * j];
    assert Decode(s)[3 * j + 1] == Decode(t)[3 * j + 1];
    assert Decode(s)[3 * j + 2] == Decode(t)[3 * j + 2];
    GroupDecodes(s, t, j);
    assert k == 4 * j || k == 4 * j + 1 || k == 4 * j + 2 || k == 4 * j + 3;
  }

  /** The bytes tell everything but the four bits. */
  lemma DecodesAlikeExactly(s: string, t: string)
    requires IsSignature(s) && IsSignature(t)
    ensures Decode(s) == Decode(t) <==> SpellAlike(s, t)
  {
    if Decode(s) == Decode(t) {
      assert Decode(s)[63] == Decode(t)[63];
      LastGroup(s, t);
      forall k | 0 <= k < 84 ensures s[k] == t[k] {
        CharacterDecodes(s, t, k);
      }
    } else if SpellAlike(s, t) {
      forall i | 0 <= i < 64 ensures ByteAt(s, i) == ByteAt(t, i) {
        assert forall k :: 0 <= k < 85 ==> s[k] == s[..85][k] == t[k];
      }
    }
  }

  lemma LastGroup(s: string, t: string)
    requires IsSignature(s) && IsSignature(t) && ByteAt(s, 63) == ByteAt(t, 63)
    ensures s[84] == t[84] && Sextet(s[85]) / 16 == Sextet(t[85]) / 16
  {
    SextetsBound(s[84], s[85]);
    SextetsBound(t[84], t[85]);
    HighBits(Sextet(s[84]), Sextet(s[85]), Sextet(t[84]), Sextet(t[85]));
    SextetsDiffer(s[84], t[84]);
  }

  lemma HighBits(a: nat, b: nat, a': nat, b': nat)
    requires a < 64 && b < 64 && a' < 64 && b' < 64 && a * 4 + b / 16 == a' * 4 + b' / 16
    ensures a == a' && b / 16 == b' / 16
  {
  }

  lemma SextetsBound(c: char, d: char)
    requires IsBase64Char(c) && IsBase64Char(d)
    ensures Sextet(c) < 64 && Sextet(d) < 64
  {
  }

  /** The text with other bits in the place that is dropped. */
  function Spelling(s: string, bits: nat): (t: string)
    requires IsSignature(s) && bits < 16
    ensures IsSignature(t) && SpellAlike(s, t) && Sextet(t[85]) % 16 == bits
  {
    SextetsBound(s[85], s[85]);
    s[85 := Letter(Sextet(s[85]) / 16 * 16 + bits)]
  }

  function Spellings(s: string): (texts: seq<string>)
    requires IsSignature(s)
    ensures |texts| == 16
  {
    seq(16, bits requires 0 <= bits < 16 => Spelling(s, bits))
  }

  /** A signature has exactly sixteen texts. */
  lemma SixteenSpellings(s: string)
    requires IsSignature(s)
    ensures Distinct(Spellings(s))
    ensures forall t :: t in Spellings(s) <==> IsSignature(t) && Decode(t) == Decode(s)
  {
    forall i, j | 0 <= i < j < 16 ensures Spellings(s)[i] != Spellings(s)[j] {
      assert Sextet(Spelling(s, i)[85]) % 16 == i && Sextet(Spelling(s, j)[85]) % 16 == j;
    }
    forall t | IsSignature(t) ensures t in Spellings(s) <==> Decode(t) == Decode(s) {
      DecodesAlikeExactly(t, s);
      if SpellAlike(t, s) {
        IsOwnSpelling(s, t);
        assert Spellings(s)[Sextet(t[85]) % 16] == t;
      }
    }
  }

  lemma IsOwnSpelling(s: string, t: string)
    requires IsSignature(s) && IsSignature(t) && SpellAlike(t, s)
    ensures Spelling(s, Sextet(t[85]) % 16) == t
  {
    var u := Spelling(s, Sextet(t[85]) % 16);
    assert Sextet(u[85]) == Sextet(t[85]);
    SextetsDiffer(u[85], t[85]);
    assert u[..85] == s[..85] == t[..85];
    assert forall k :: 0 <= k < 85 ==> u[k] == u[..85][k] == t[..85][k] == t[k];
    assert u[86] == t[86] && u[87] == t[87];
  }
}
