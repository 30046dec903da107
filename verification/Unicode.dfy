/** Text as UTF-8 bytes. */
module Unicode {
  import opened Ipv4

  function Utf8Char(c: char): (r: seq<Byte>)
    ensures r != []
  {
    var n := c as int;
    if n < 0x80 then [n]
    else if n < 0x800 then [0xC0 + n / 64, 0x80 + n % 64]
    else if n < 0x1_0000 then [0xE0 + n / 4096, 0x80 + n / 64 % 64, 0x80 + n % 64]
    else [0xF0 + n / 262144, 0x80 + n / 4096 % 64, 0x80 + n / 64 % 64, 0x80 + n % 64]
  }

  function Utf8(s: string): (r: seq<Byte>)
  {
    if s == "" then [] else Utf8Char(s[0]) + Utf8(s[1..])
  }

  lemma {:induction false} Utf8Concat(a: string, b: string)
    ensures Utf8(a + b) == Utf8(a) + Utf8(b)
  {
    hide Utf8Char;
    if a == "" {
      assert a + b == b;
    } else {
      assert (a + b)[0] == a[0] && (a + b)[1..] == a[1..] + b;
      Utf8Concat(a[1..], b);
    }
  }

  lemma Utf8CharExactly(c: char, d: char, x: seq<Byte>, y: seq<Byte>)
    requires Utf8Char(c) + x == Utf8Char(d) + y
    ensures c == d && x == y
  {
    var s, t := Utf8Char(c) + x, Utf8Char(d) + y;
    assert s[0] == t[0];
    assert |Utf8Char(c)| == |Utf8Char(d)|;
    var n := |Utf8Char(c)|;
    assert s[..n] == Utf8Char(c) && t[..n] == Utf8Char(d) && s[n..] == x && t[n..] == y;
    SameEncoding(c, d);
  }

  lemma SameEncoding(c: char, d: char)
    requires Utf8Char(c) == Utf8Char(d)
    ensures c == d
  {
    var b := Utf8Char(c);
    assert Decoded(b) == c as int && Decoded(b) == d as int by {
      DecodedBack(c);
      DecodedBack(d);
    }
  }

  function Low(b: Byte): (n: int)
  {
    b as int - 0x80
  }

  function Decoded(b: seq<Byte>): (n: int)
    requires 1 <= |b| <= 4
  {
    var lead := b[0] as int;
    if |b| == 1 then lead
    else if |b| == 2 then (lead - 0xC0) * 64 + Low(b[1])
    else if |b| == 3 then (lead - 0xE0) * 4096 + Low(b[1]) * 64 + Low(b[2])
    else (lead - 0xF0) * 262144 + Low(b[1]) * 4096 + Low(b[2]) * 64 + Low(b[3])
  }

  lemma DecodedBack(c: char)
    ensures 1 <= |Utf8Char(c)| <= 4 && Decoded(Utf8Char(c)) == c as int
  {
    SixBits(c as int);
  }

  // A number is its groups of six bits put together.
  lemma SixBits(n: nat)
    ensures n == n / 64 * 64 + n % 64
    ensures n / 64 == n / 4096 * 64 + n / 64 % 64
    ensures n / 4096 == n / 262144 * 64 + n / 4096 % 64
  {
    SixMore(n, 64);
    SixMore(n, 4096);
  }

  lemma SixMore(n: nat, k: nat)
    requires k == 64 || k == 4096
    ensures n / k == n / (64 * k) * 64 + n / k % 64
  {
    assert n / k / 64 == n / (64 * k);
  }

  // Different texts have different bytes.
  lemma {:induction false} Utf8Injective(a: string, b: string)
    requires Utf8(a) == Utf8(b)
    ensures a == b
  {
    hide Utf8Char;
    if a != "" && b != "" {
      Utf8CharExactly(a[0], b[0], Utf8(a[1..]), Utf8(b[1..]));
      Utf8Injective(a[1..], b[1..]);
      assert a == [a[0]] + a[1..] && b == [b[0]] + b[1..];
    }
  }

  lemma {:induction false} Utf8Zero(s: string)
    ensures 0 in Utf8(s) <==> '\0' in s
  {
    if s != "" {
      Utf8Zero(s[1..]);
      assert s == [s[0]] + s[1..];
    }
  }
}
