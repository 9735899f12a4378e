/** Standard base64 with padding, section 4 of RFC 4648. */
module Base64 {

  newtype Byte = b: int | 0 <= b < 256

  function Sextet(n: int): char
    requires 0 <= n < 64
  {
    if n < 26 then ('A' as int + n) as char
    else if n < 52 then ('a' as int + n - 26) as char
    else if n < 62 then ('0' as int + n - 52) as char
    else if n == 62 then '+' else '/'
  }

  /** One group of three bytes as four characters; `pad` of the bytes are missing at the end. */
  function Group(a: int, b: int, c: int, pad: nat): (s: string)
    requires 0 <= a < 256 && 0 <= b < 256 && 0 <= c < 256
    ensures |s| == 4
  {
    [Sextet(a / 4), Sextet(a % 4 * 16 + b / 16),
     if pad >= 2 then '=' else Sextet(b % 16 * 4 + c / 64),
     if pad >= 1 then '=' else Sextet(c % 64)]
  }

  function Encode(s: seq<Byte>): string {
    if s == [] then ""
    else if |s| == 1 then Group(s[0] as int, 0, 0, 2)
    else if |s| == 2 then Group(s[0] as int, s[1] as int, 0, 1)
    else Group(s[0] as int, s[1] as int, s[2] as int, 0) + Encode(s[3..])
  }

  // ---------------------------------------------------------------- the alphabet, and a decoder

  const ALPHABET := "ABCDEFGHIJKLM" + "NOPQRSTUVWXYZ" + "abcdefghijklm" + "nopqrstuvwxyz" + "0123456789" + "+/"

  /** The place of a character in the alphabet from `i` on, 64 if it is not there. */
  function PlaceFrom(c: char, i: nat): (n: nat)
    requires i <= 64
    ensures n <= 64 && (n < 64 ==> i <= n && ALPHABET[n] == c)
    decreases 64 - i
  {
    if i == 64 then 64 else if ALPHABET[i] == c then i else PlaceFrom(c, i + 1)
  }

  /** What a character stands for; padding stands for zeros. */
  function ValueOf(c: char): nat {
    if c == '=' then 0 else PlaceFrom(c, 0)
  }

  /** The 24 bits of four characters. */
  function Joined(t: string): nat
    requires |t| == 4
  {
    ValueOf(t[0]) * 0x40000 + ValueOf(t[1]) * 0x1000 + ValueOf(t[2]) * 0x40 + ValueOf(t[3])
  }

  /** The bytes of a text: three of each group of four, less what its padding leaves out. */
  function Decode(t: string): seq<int> {
    if |t| < 4 then []
    else
      var n := Joined(t[..4]);
      [n / 0x10000] + (if t[2] == '=' then [] else [n / 0x100 % 0x100]) + (if t[3] == '=' then [] else [n % 0x100])
      + Decode(t[4..])
  }

  lemma SextetInAlphabet(n: nat)
    requires n < 64
    ensures Sextet(n) == ALPHABET[n]
  {
    if n < 13 {
      assert ALPHABET[n] == "ABCDEFGHIJKLM"[n];
    } else if n < 26 {
      assert ALPHABET[n] == "NOPQRSTUVWXYZ"[n - 13];
    } else if n < 39 {
      assert ALPHABET[n] == "abcdefghijklm"[n - 26];
    } else if n < 52 {
      assert ALPHABET[n] == "nopqrstuvwxyz"[n - 39];
    } else if n < 62 {
      assert ALPHABET[n] == "0123456789"[n - 52];
    }
  }

  lemma {:induction false} PlaceIs(n: nat, i: nat)
    requires i <= n < 64
    ensures PlaceFrom(Sextet(n), i) == n
    decreases n - i
  {
    SextetInAlphabet(n);
    SextetInAlphabet(i);
    hide ALPHABET;
    if i < n {
      PlaceIs(n, i + 1);
    }
  }

  lemma SextetValue(n: int)
    requires 0 <= n < 64
    ensures ValueOf(Sextet(n)) == n && Sextet(n) != '='
  {
    PlaceIs(n, 0);
  }

  /** A group says in 24 bits just its bytes, with zeros for the missing ones, and shows by its padding
      how many are missing. */
  lemma GroupJoins(a: int, b: int, c: int, pad: nat)
    requires 0 <= a < 256 && 0 <= b < 256 && 0 <= c < 256
    requires (pad >= 1 ==> c == 0) && (pad >= 2 ==> b == 0)
    ensures var g := Group(a, b, c, pad);
            && Joined(g) == a * 0x10000 + b * 0x100 + c
            && g[0] != '=' && g[1] != '=' && (g[2] == '=' <==> pad >= 2) && (g[3] == '=' <==> pad >= 1)
  {
    hide Sextet, ValueOf;
    SextetValue(a / 4);
    SextetValue(a % 4 * 16 + b / 16);
    SextetValue(b % 16 * 4 + c / 64);
    SextetValue(c % 64);
    assert pad >= 1 ==> c % 64 == 0 && c / 64 == 0;
    assert ValueOf('=') == 0 by { PaddingIsZero(); }
  }

  lemma PaddingIsZero()
    ensures ValueOf('=') == 0
  {
  }

  function Ints(s: seq<Byte>): seq<int> {
    seq(|s|, i requires 0 <= i < |s| => s[i] as int)
  }

  /** Every text decodes to the bytes it was made from; what the padding leaves out is zero. */
  lemma {:induction false} RoundTrip(s: seq<Byte>)
    ensures Decode(Encode(s)) == Ints(s)
    ensures |Encode(s)| == (|s| + 2) / 3 * 4
    ensures 0 < |s| < 3 ==>
              Joined(Encode(s)) == s[0] as int * 0x10000 + if |s| == 2 then s[1] as int * 0x100 else 0
    decreases |s|
  {
    hide Group, Joined, Decode, Ints;
    if s == [] {
      NoText();
    } else {
      var a, b, c := s[0] as int, if |s| > 1 then s[1] as int else 0, if |s| > 2 then s[2] as int else 0;
      var pad := if |s| == 1 then 2 else if |s| == 2 then 1 else 0;
      var g, rest := Group(a, b, c, pad), if |s| > 3 then s[3..] else [];
      GroupJoins(a, b, c, pad);
      RoundTrip(rest);
      assert Encode(rest) == "" || |s| > 3;
      assert Encode(s) == g + Encode(rest);
      DecodeGroup(g, Encode(rest), a, b, c, pad);
      FirstInts(s);
    }
  }

  lemma NoText()
    ensures Decode("") == [] && Ints([]) == []
  {
  }

  lemma FirstInts(s: seq<Byte>)
    requires s != []
    ensures Ints(s) == [s[0] as int] + (if |s| > 1 then [s[1] as int] else []) + (if |s| > 2 then [s[2] as int] else [])
                       + Ints(if |s| > 3 then s[3..] else [])
  {
  }

  lemma DecodeGroup(g: string, rest: string, a: int, b: int, c: int, pad: nat)
    requires 0 <= a < 256 && 0 <= b < 256 && 0 <= c < 256
    requires |g| == 4 && Joined(g) == a * 0x10000 + b * 0x100 + c
    requires (g[2] == '=' <==> pad >= 2) && (g[3] == '=' <==> pad >= 1)
    ensures Decode(g + rest) == [a] + (if pad >= 2 then [] else [b]) + (if pad >= 1 then [] else [c]) + Decode(rest)
  {
    hide Joined;
    assert (g + rest)[..4] == g && (g + rest)[4..] == rest;
    Bytes(a, b, c);
  }

  lemma Bytes(a: int, b: int, c: int)
    requires 0 <= a < 256 && 0 <= b < 256 && 0 <= c < 256
    ensures var n := a * 0x10000 + b * 0x100 + c;
            n / 0x10000 == a && n / 0x100 % 0x100 == b && n % 0x100 == c
  {
  }

  /** So different bytes have different texts. */
  lemma EncodeInjective(s: seq<Byte>, t: seq<Byte>)
    ensures Encode(s) == Encode(t) ==> s == t
  {
    hide Encode, Decode;
    RoundTrip(s);
    RoundTrip(t);
    if Encode(s) == Encode(t) {
      assert |Ints(s)| == |Ints(t)|;
      forall i | 0 <= i < |s| ensures s[i] == t[i] {
        assert Ints(s)[i] == Ints(t)[i];
      }
    }
  }
}
