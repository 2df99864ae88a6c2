/** The part of `bcryptjs` the handlers rely on: `hash` and `compare`.
    bcrypt keys its cipher with 72 bytes: the UTF-8 bytes of the password
    followed by a zero byte, repeated as often as needed and cut at 72. Two
    passwords with the same 72 key bytes are indistinguishable. The digest
    is modelled symbolically: it records the key bytes and the salt; the
    cipher itself is not modelled. */
module Bcrypt {

  newtype Byte = x: int | 0 <= x < 256

  /** The number of password bytes bcrypt's key schedule uses. */
  const KeyBytes := 72

  // ---- UTF-8 -------------------------------------------------------------

  /** The UTF-8 encoding of one character (a Unicode scalar value). */
  function Utf8Char(c: char): (r: seq<Byte>)
    ensures 1 <= |r| <= 4
    ensures |r| == LeadLength(r[0])
  {
    var n := c as int;
    var q1 := n / 64;
    var q2 := q1 / 64;
    var q3 := q2 / 64;
    if n < 0x80 then [n as Byte]
    else if n < 0x800 then [(0xC0 + q1) as Byte, (0x80 + n % 64) as Byte]
    else if n < 0x1_0000 then [(0xE0 + q2) as Byte, (0x80 + q1 % 64) as Byte, (0x80 + n % 64) as Byte]
    else [(0xF0 + q3) as Byte, (0x80 + q2 % 64) as Byte, (0x80 + q1 % 64) as Byte, (0x80 + n % 64) as Byte]
  }

  /** The length of an encoded character, read off its first byte. */
  function LeadLength(b: Byte): nat {
    if b < 0x80 then 1 else if b < 0xE0 then 2 else if b < 0xF0 then 3 else 4
  }

  /** The UTF-8 encoding of a string. */
  function Utf8(s: string): (r: seq<Byte>)
    ensures |r| >= |s|
    ensures r == [] <==> s == []
  {
    if s == [] then [] else Utf8Char(s[0]) + Utf8(s[1..])
  }

  // ---- hash and compare --------------------------------------------------

  /** The encoding with its terminating zero byte. */
  function Terminated(password: string): (r: seq<Byte>)
    ensures |r| == |Utf8(password)| + 1 && r[|r| - 1] == 0
  {
    Utf8(password) + [0]
  }

  /** The first `n` bytes of `t` repeated without end: it starts with `t`
      and every later byte repeats the one `|t|` places before it. */
  function Cycle(t: seq<Byte>, n: nat): (r: seq<Byte>)
    requires t != []
    ensures |r| == n
    ensures forall i :: 0 <= i < n && i < |t| ==> r[i] == t[i]
    ensures forall i :: |t| <= i < n ==> r[i] == r[i - |t|]
    decreases n
  {
    if n <= |t| then t[..n]
    else
      var rest := Cycle(t, n - |t|);
      assert forall i :: |t| <= i < n ==> (t + rest)[i] == rest[i - |t|];
      t + rest
  }

  /** The bytes bcrypt keys its cipher with: the terminated encoding read
      cyclically until 72 bytes are taken. A password of 72 bytes or more
      contributes exactly its first 72 bytes; a shorter one contributes all
      of its bytes followed by a zero byte. */
  function KeyOf(password: string): (r: seq<Byte>)
    ensures |r| == KeyBytes
    ensures |Utf8(password)| >= KeyBytes ==> r == Utf8(password)[..KeyBytes]
    ensures |Utf8(password)| < KeyBytes ==>
      r[..|Utf8(password)|] == Utf8(password) && r[|Utf8(password)|] == 0
  {
    var b, t := Utf8(password), Terminated(password);
    var r := Cycle(t, KeyBytes);
    assert |b| >= KeyBytes ==> r == b[..KeyBytes];
    assert |b| < KeyBytes ==> r[..|b|] == t[..|b|] == b;
    r
  }

  /** The byte sequence that starts with `t` and repeats with period `|t|`
      is unique: it agrees with `Cycle` at every position. */
  lemma {:induction false} PeriodicAgrees(t: seq<Byte>, k: seq<Byte>, i: nat)
    requires t != [] && i < |k|
    requires forall j :: 0 <= j < |k| && j < |t| ==> k[j] == t[j]
    requires forall j :: |t| <= j < |k| ==> k[j] == k[j - |t|]
    ensures k[i] == Cycle(t, |k|)[i]
    decreases i
  {
    if i >= |t| {
      PeriodicAgrees(t, k, i - |t|);
    }
  }

  /** A digest: the key bytes and the salt it was computed with. */
  datatype Digest = Digest(key: seq<Byte>, salt: nat)

  /** `bcrypt.compare(password, digest)`: the digest was computed from a
      password with the same key bytes. It accepts exactly when the digest's
      key has 72 bytes, starts with the terminated encoding and from there
      on repeats it; for a password of 72 bytes or more, exactly when the
      key is its first 72 bytes. */
  function Compare(password: string, digest: Digest): (r: bool)
    ensures r <==>
      && |digest.key| == KeyBytes
      && (forall i :: 0 <= i < KeyBytes && i < |Terminated(password)| ==> digest.key[i] == Terminated(password)[i])
      && (forall i :: |Terminated(password)| <= i < KeyBytes ==> digest.key[i] == digest.key[i - |Terminated(password)|])
    ensures |Utf8(password)| >= KeyBytes ==> (r <==> digest.key == Utf8(password)[..KeyBytes])
  {
    var t, k := Terminated(password), digest.key;
    if |k| == KeyBytes
      && (forall i :: 0 <= i < KeyBytes && i < |t| ==> k[i] == t[i])
      && (forall i :: |t| <= i < KeyBytes ==> k[i] == k[i - |t|])
    then
      assert k == Cycle(t, KeyBytes) by {
        forall i | 0 <= i < KeyBytes
          ensures k[i] == Cycle(t, KeyBytes)[i]
        {
          PeriodicAgrees(t, k, i);
        }
      }
      KeyOf(password) == k
    else
      KeyOf(password) == k
  }

  /** `bcrypt.hash(password, salt)`: a digest with that salt which accepts
      exactly the passwords with this one's key bytes, this one among
      them. */
  function Hash(password: string, salt: nat): (r: Digest)
    ensures r.salt == salt
    ensures Compare(password, r)
    ensures forall q :: Compare(q, r) <==> KeyOf(q) == KeyOf(password)
  {
    Digest(KeyOf(password), salt)
  }

  // ---- properties --------------------------------------------------------

  /** Encoding distributes over concatenation. */
  lemma {:induction false} Utf8Append(a: string, b: string)
    ensures Utf8(a + b) == Utf8(a) + Utf8(b)
    decreases |a|
  {
    if a != [] {
      assert (a + b)[1..] == a[1..] + b;
      Utf8Append(a[1..], b);
    } else {
      assert a + b == b;
    }
  }

  /** Distinct characters have distinct encodings. */
  lemma Utf8CharInjective(c: char, d: char)
    requires Utf8Char(c) == Utf8Char(d)
    ensures c == d
  {
    var n, m := c as int, d as int;
    assert n == 64 * (n / 64) + n % 64 && m == 64 * (m / 64) + m % 64;
    assert n / 64 == 64 * (n / 64 / 64) + n / 64 % 64;
    assert m / 64 == 64 * (m / 64 / 64) + m / 64 % 64;
    assert n / 64 / 64 == 64 * (n / 64 / 64 / 64) + n / 64 / 64 % 64;
    assert m / 64 / 64 == 64 * (m / 64 / 64 / 64) + m / 64 / 64 % 64;
  }

  /** The encoding of a string determines the string. */
  lemma {:induction false} Utf8Injective(s: string, t: string)
    requires Utf8(s) == Utf8(t)
    ensures s == t
    decreases |s|
  {
    if s != [] {
      var cs, ct := Utf8Char(s[0]), Utf8Char(t[0]);
      assert Utf8(s) == cs + Utf8(s[1..]) && Utf8(t) == ct + Utf8(t[1..]);
      assert cs[0] == Utf8(s)[0] == ct[0];
      assert cs == Utf8(s)[..|cs|] == Utf8(t)[..|ct|] == ct;
      Utf8CharInjective(s[0], t[0]);
      assert Utf8(s[1..]) == Utf8(s)[|cs|..] == Utf8(t)[|ct|..] == Utf8(t[1..]);
      Utf8Injective(s[1..], t[1..]);
      assert s == [s[0]] + s[1..] && t == [t[0]] + t[1..];
    }
  }

  /** Without U+0000 in the string, no zero byte in its encoding. */
  lemma {:induction false} Utf8HasNoZero(s: string)
    requires '\0' !in s
    ensures 0 !in Utf8(s)
    decreases |s|
  {
    if s != [] {
      assert s[0] != '\0' && '\0' !in s[1..];
      Utf8HasNoZero(s[1..]);
    }
  }

  /** Without U+0000, the first zero byte of the key, if any, sits just
      past the encoding, and only a password of 72 bytes or more has none. */
  lemma KeyEndsAtFirstZero(s: string)
    requires '\0' !in s
    ensures forall i :: 0 <= i < KeyBytes && i < |Utf8(s)| ==> KeyOf(s)[i] != 0
    ensures |Utf8(s)| < KeyBytes ==> KeyOf(s)[|Utf8(s)|] == 0
  {
    Utf8HasNoZero(s);
    var k, b := KeyOf(s), Utf8(s);
    forall i | 0 <= i < KeyBytes && i < |b|
      ensures k[i] != 0
    {
      if |b| < KeyBytes {
        assert k[i] == k[..|b|][i];
      }
      assert k[i] == b[i];
    }
  }

  /** Among passwords without U+0000, one shorter than 72 UTF-8 bytes
      matches its own digest and no other: the first zero byte of the key
      marks where the encoding ends. */
  lemma ShortPasswordMatchesOnlyItself(password: string, q: string, salt: nat)
    requires |Utf8(password)| < KeyBytes
    requires '\0' !in password && '\0' !in q
    ensures Compare(q, Hash(password, salt)) <==> q == password
  {
    if Compare(q, Hash(password, salt)) {
      var p, b, k := Utf8(password), Utf8(q), KeyOf(password);
      KeyEndsAtFirstZero(password);
      KeyEndsAtFirstZero(q);
      assert KeyOf(q) == k;
      assert |b| == |p|;
      assert b == k[..|b|] == p;
      Utf8Injective(q, password);
    }
  }

  /** With U+0000 inside, a different password can repeat a short one's key
      bytes: "a", U+0000, "a" is accepted by the digest of "a", since both
      key streams read 0x61 0x00 0x61 0x00 and so on. */
  lemma ZeroCharRepeatsKey(salt: nat)
    ensures "a\0a" != "a" && Compare("a\0a", Hash("a", salt))
  {
    assert Utf8Char('a') == [97 as Byte] && Utf8Char('\0') == [0 as Byte];
    assert Utf8("a") == [97 as Byte] by {
      assert "a"[1..] == [];
    }
    assert Utf8("a\0a") == [97 as Byte, 0, 97] by {
      assert "a\0a"[1..] == "\0a" && "\0a"[1..] == "a";
    }
    var t := Terminated("a");
    assert t == [97, 0] && Terminated("a\0a") == t + t;
    CycleOfDoubled(t, KeyBytes);
  }

  /** Repeating `t + t` gives the same bytes as repeating `t`. */
  lemma {:induction false} CycleOfDoubled(t: seq<Byte>, n: nat)
    requires t != []
    ensures Cycle(t + t, n) == Cycle(t, n)
    decreases n
  {
    if n <= |t| {
      assert (t + t)[..n] == t[..n];
    } else if n <= 2 * |t| {
      assert Cycle(t, n - |t|) == t[..n - |t|];
      assert (t + t)[..n] == t + t[..n - |t|];
    } else {
      CycleOfDoubled(t, n - 2 * |t|);
      assert Cycle(t, n - |t|) == t + Cycle(t, n - 2 * |t|);
      assert Cycle(t, n) == t + t + Cycle(t, n - 2 * |t|);
    }
  }

  /** Once a password reaches 72 UTF-8 bytes, whatever follows is ignored:
      any two extensions of it match each other's digests. */
  lemma {:induction false} BytesPastTheKeyIgnored(prefix: string, s1: string, s2: string, salt: nat)
    requires |Utf8(prefix)| >= KeyBytes
    ensures Compare(prefix + s1, Hash(prefix + s2, salt))
  {
    Utf8Append(prefix, s1);
    Utf8Append(prefix, s2);
    assert (Utf8(prefix) + Utf8(s1))[..KeyBytes] == Utf8(prefix)[..KeyBytes];
    assert (Utf8(prefix) + Utf8(s2))[..KeyBytes] == Utf8(prefix)[..KeyBytes];
    assert KeyOf(prefix + s1) == KeyOf(prefix + s2);
  }
}
