/** Hexadecimal text (section 8 of RFC 4648), big-endian integers, and splitting at dots. */
module Encoding {
  import opened Arithmetic
  import opened Wrappers
  import opened Entities

  // ----- Hexadecimal -----------------------------------------------------

  const DIGITS: string := "0123456789abcdef"

  function HexValue(c: char): (r: Option<int>)
    ensures r.Some? ==> 0 <= r.value < 16
  {
    if '0' <= c <= '9' then Some(c as int - '0' as int)
    else if 'a' <= c <= 'f' then Some(c as int - 'a' as int + 10)
    else if 'A' <= c <= 'F' then Some(c as int - 'A' as int + 10)
    else None
  }

  function HexEncode(bs: seq<Byte>): string {
    if bs == [] then "" else [DIGITS[bs[0] / 16], DIGITS[bs[0] % 16]] + HexEncode(bs[1..])
  }

  function HexDecode(s: string): Option<seq<Byte>> {
    if s == "" then Some([])
    else if |s| == 1 then None
    else
      var hi, lo, rest := HexValue(s[0]), HexValue(s[1]), HexDecode(s[2..]);
      if hi.None? || lo.None? || rest.None? then None else Some([hi.value * 16 + lo.value] + rest.value)
  }

  /** Lower case for the hexadecimal letters; every other character is itself. */
  function Lower(c: char): char {
    if 'A' <= c <= 'F' then (c as int + 32) as char else c
  }

  ghost predicate SameText(s: string, t: string) {
    |s| == |t| && forall i :: 0 <= i < |s| ==> Lower(s[i]) == Lower(t[i])
  }

  lemma DigitExact(c: char, n: int)
    requires 0 <= n < 16
    ensures HexValue(c) == Some(n) <==> Lower(c) == DIGITS[n]
    ensures Lower(DIGITS[n]) == DIGITS[n] && DIGITS[n] != '.'
  {
  }

  lemma {:induction false} EncodedLength(bs: seq<Byte>)
    ensures |HexEncode(bs)| == 2 * |bs|
    ensures forall i :: 0 <= i < |HexEncode(bs)| ==>
              Lower(HexEncode(bs)[i]) == HexEncode(bs)[i] && HexEncode(bs)[i] != '.'
  {
    if bs != [] {
      EncodedLength(bs[1..]);
      DigitExact('0', bs[0] / 16);
      DigitExact('0', bs[0] % 16);
    }
  }

  /** What decodes is made of digits, two for each byte. */
  lemma {:induction false} DecodedDigits(s: string)
    requires HexDecode(s).Some?
    ensures |s| == 2 * |HexDecode(s).value|
    ensures forall i :: 0 <= i < |s| ==> '0' <= s[i] <= '9' || 'a' <= s[i] <= 'f' || 'A' <= s[i] <= 'F'
    decreases |s|
  {
    if s != "" {
      DecodedDigits(s[2..]);
      assert forall i :: 2 <= i < |s| ==> s[i] == s[2..][i - 2];
    }
  }

  /** The text of a number below sixteen: ten digits and six lower-case letters. */
  function Digit(n: int): char
    requires 0 <= n < 16
  {
    if n < 10 then '0' + n as char else 'a' + (n - 10) as char
  }

  lemma DigitIs(n: int)
    requires 0 <= n < 16
    ensures DIGITS[n] == Digit(n)
  {
  }

  lemma TailAt(head: string, tail: string, k: nat)
    requires |head| == 2 && k < |tail|
    ensures (head + tail)[k + 2] == tail[k]
  {
  }

  /** A byte is written as its high digit and then its low one. */
  lemma {:induction false} EncodedDigits(bs: seq<Byte>, i: nat)
    requires i < |bs|
    ensures |HexEncode(bs)| == 2 * |bs|
    ensures HexEncode(bs)[2 * i] == Digit(bs[i] / 16) && HexEncode(bs)[2 * i + 1] == Digit(bs[i] % 16)
  {
    EncodedLength(bs);
    var head, tail := [DIGITS[bs[0] / 16], DIGITS[bs[0] % 16]], HexEncode(bs[1..]);
    if i == 0 {
      DigitIs(bs[0] / 16);
      DigitIs(bs[0] % 16);
    } else {
      EncodedDigits(bs[1..], i - 1);
      TailAt(head, tail, 2 * (i - 1));
      TailAt(head, tail, 2 * (i - 1) + 1);
    }
  }

  lemma SameTextByByte(s: string, x: char, y: char, tail: string)
    ensures SameText(s, [x, y] + tail)
            <==> |s| >= 2 && Lower(s[0]) == Lower(x) && Lower(s[1]) == Lower(y) && SameText(s[2..], tail)
  {
    var t := [x, y] + tail;
    if SameText(s, t) {
      assert forall i :: 0 <= i < |tail| ==> s[2..][i] == s[i + 2] && tail[i] == t[i + 2];
    }
    if |s| >= 2 && SameText(s[2..], tail) && Lower(s[0]) == Lower(x) && Lower(s[1]) == Lower(y) {
      forall i | 0 <= i < |s| ensures Lower(s[i]) == Lower(t[i]) {
        if i >= 2 {
          assert s[i] == s[2..][i - 2] && t[i] == tail[i - 2];
        }
      }
    }
  }

  lemma DecodedByByte(s: string, b: Byte, rest: seq<Byte>)
    requires |s| >= 2
    ensures HexDecode(s) == Some([b] + rest)
            <==> HexValue(s[0]) == Some(b / 16) && HexValue(s[1]) == Some(b % 16) && HexDecode(s[2..]) == Some(rest)
  {
    var hi, lo, more := HexValue(s[0]), HexValue(s[1]), HexDecode(s[2..]);
    if hi.Some? && lo.Some? && more.Some? {
      var first: Byte := hi.value * 16 + lo.value;
      assert HexDecode(s) == Some([first] + more.value);
      assert first / 16 == hi.value && first % 16 == lo.value;
      assert ([first] + more.value)[1..] == more.value && ([b] + rest)[1..] == rest;
      assert [first] + more.value == [b] + rest <==> first == b && more.value == rest;
    }
  }

  /** Decoding accepts exactly the encoder's output, up to the case of its letters. */
  lemma {:induction false} DecodeExact(s: string, bs: seq<Byte>)
    ensures HexDecode(s) == Some(bs) <==> SameText(s, HexEncode(bs))
    decreases |s|
  {
    if bs == [] {
      assert HexEncode(bs) == "";
    } else {
      var b, rest := bs[0], bs[1..];
      var x, y := DIGITS[b / 16], DIGITS[b % 16];
      assert bs == [b] + rest;
      SameTextByByte(s, x, y, HexEncode(rest));
      if |s| >= 2 {
        DecodeExact(s[2..], rest);
        DigitExact(s[0], b / 16);
        DigitExact(s[1], b % 16);
        DecodedByByte(s, b, rest);
      }
    }
  }

  lemma HexRoundTrip(bs: seq<Byte>)
    ensures HexDecode(HexEncode(bs)) == Some(bs)
  {
    DecodeExact(HexEncode(bs), bs);
  }

  // ----- Big-endian integers ---------------------------------------------

  function Pow256(n: nat): (r: nat)
    ensures r > 0
  {
    if n == 0 then 1 else 256 * Pow256(n - 1)
  }

  function BigEndian(v: nat, n: nat): (r: seq<Byte>)
    ensures |r| == n
  {
    if n == 0 then [] else BigEndian(v / 256, n - 1) + [v % 256]
  }

  function FromBigEndian(bs: seq<Byte>): nat {
    if bs == [] then 0 else 256 * FromBigEndian(bs[..|bs| - 1]) + bs[|bs| - 1]
  }

  lemma {:induction false} BigEndianRoundTrip(v: nat, n: nat)
    requires v < Pow256(n)
    ensures FromBigEndian(BigEndian(v, n)) == v
  {
    if n > 0 {
      BigEndianRoundTrip(v / 256, n - 1);
      var r := BigEndian(v, n);
      assert r[..|r| - 1] == BigEndian(v / 256, n - 1);
    }
  }

  lemma Pow256Of8()
    ensures Pow256(8) == 0x1_0000_0000_0000_0000
  {
    assert Pow256(4) == 0x1_0000_0000;
  }

  /** Byte i of the big-endian form is the digit of that weight, the most significant first. */
  lemma {:induction false} BigEndianDigit(v: nat, n: nat, i: nat)
    requires i < n
    ensures BigEndian(v, n)[i] == v / Pow256(n - 1 - i) % 256
  {
    if i < n - 1 {
      BigEndianDigit(v / 256, n - 1, i);
      assert BigEndian(v, n)[i] == BigEndian(v / 256, n - 1)[i];
      DivideTwice(v, Pow256(n - 2 - i));
    }
  }

  // ----- Splitting -------------------------------------------------------

  /** The pieces of the text between its dots; there is always at least one. */
  function Split(s: string): (r: seq<string>)
    ensures |r| >= 1
  {
    if s == "" then [""]
    else
      var rest := Split(s[1..]);
      if s[0] == '.' then [""] + rest else [[s[0]] + rest[0]] + rest[1..]
  }

  function Join(parts: seq<string>): string
    requires |parts| >= 1
  {
    if |parts| == 1 then parts[0] else parts[0] + "." + Join(parts[1..])
  }

  lemma {:induction false} SplitJoins(s: string)
    ensures Join(Split(s)) == s
    ensures forall i :: 0 <= i < |Split(s)| ==> '.' !in Split(s)[i]
  {
    if s != "" {
      SplitJoins(s[1..]);
      var rest := Split(s[1..]);
      if s[0] == '.' {
        assert ([""] + rest)[1..] == rest;
        assert s == "." + s[1..];
      } else {
        var parts := [[s[0]] + rest[0]] + rest[1..];
        assert parts[1..] == rest[1..];
        assert s == [s[0]] + s[1..];
        if |rest| > 1 {
          assert [s[0]] + (rest[0] + "." + Join(rest[1..])) == ([s[0]] + rest[0]) + "." + Join(rest[1..]);
        }
      }
    }
  }

  lemma {:induction false} SplitPlain(a: string)
    requires '.' !in a
    ensures Split(a) == [a]
  {
    if a != "" {
      SplitPlain(a[1..]);
      assert a == [a[0]] + a[1..];
    }
  }

  lemma {:induction false} SplitAtDot(a: string, rest: string)
    requires '.' !in a
    ensures Split(a + "." + rest) == [a] + Split(rest)
  {
    var s := a + "." + rest;
    if a == "" {
      assert s[1..] == rest;
    } else {
      assert s[1..] == a[1..] + "." + rest;
      SplitAtDot(a[1..], rest);
      assert a == [a[0]] + a[1..];
    }
  }

  /** Three pieces without a dot are recovered from their concatenation. */
  lemma SplitOfThree(a: string, b: string, c: string)
    requires '.' !in a && '.' !in b && '.' !in c
    ensures Split(a + "." + b + "." + c) == [a, b, c]
  {
    SplitPlain(c);
    SplitAtDot(b, c);
    SplitAtDot(a, b + "." + c);
    assert a + "." + b + "." + c == a + "." + (b + "." + c);
  }

  lemma JoinOfThree(s: string)
    requires |Split(s)| == 3
    ensures var p := Split(s); s == p[0] + "." + p[1] + "." + p[2]
  {
    SplitJoins(s);
    var p := Split(s);
    assert Join(p[1..]) == p[1] + "." + p[2];
    assert p[0] + "." + (p[1] + "." + p[2]) == p[0] + "." + p[1] + "." + p[2];
  }
}
