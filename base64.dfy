/**
 * The padded base64 encoding with the standard alphabet (section 4 of RFC 4648),
 * as `base64::engine::general_purpose::STANDARD.encode` produces it.
 */
module Base64 {
  import opened Common

  /** The character for a 6-bit value. */
  function Symbol(i: nat): (c: char)
    requires i < 64
  {
    if i < 26 then ('A' as int + i) as char
    else if i < 52 then ('a' as int + i - 26) as char
    else if i < 62 then ('0' as int + i - 52) as char
    else if i == 62 then '+'
    else '/'
  }

  predicate IsSymbol(c: char) {
    ('A' <= c <= 'Z') || ('a' <= c <= 'z') || ('0' <= c <= '9') || c == '+' || c == '/'
  }

  /** The 6-bit value of an alphabet character. */
  function SymbolValue(c: char): (i: nat)
    requires IsSymbol(c)
    ensures i < 64 && Symbol(i) == c
  {
    if 'A' <= c <= 'Z' then c as int - 'A' as int
    else if 'a' <= c <= 'z' then c as int - 'a' as int + 26
    else if '0' <= c <= '9' then c as int - '0' as int + 52
    else if c == '+' then 62
    else 63
  }

  lemma SymbolInjective(i: nat)
    requires i < 64
    ensures IsSymbol(Symbol(i)) && SymbolValue(Symbol(i)) == i
  {
  }

  function EncodeGroup(a: byte, b: byte, c: byte): string {
    [Symbol(a / 4), Symbol((a % 4) * 16 + b / 16), Symbol((b % 16) * 4 + c / 64), Symbol(c % 64)]
  }

  /** `STANDARD.encode(bytes)`: every 3 bytes become 4 characters; a short tail is padded with `=`. */
  function Encode(bs: seq<byte>): (s: string)
    ensures |s| == 4 * ((|bs| + 2) / 3)
    decreases |bs|
  {
    if |bs| == 0 then ""
    else if |bs| == 1 then [Symbol(bs[0] / 4), Symbol((bs[0] % 4) * 16), '=', '=']
    else if |bs| == 2 then
      [Symbol(bs[0] / 4), Symbol((bs[0] % 4) * 16 + bs[1] / 16), Symbol((bs[1] % 16) * 4), '=']
    else EncodeGroup(bs[0], bs[1], bs[2]) + Encode(bs[3..])
  }

  /** Reads a 4-character block back into bytes. */
  function DecodeBlock(q: string): Option<seq<byte>>
    requires |q| == 4
  {
    if !IsSymbol(q[0]) || !IsSymbol(q[1]) then None
    else
      var v0, v1 := SymbolValue(q[0]), SymbolValue(q[1]);
      var x: byte := v0 * 4 + v1 / 16;
      if q[2] == '=' && q[3] == '=' then Some([x])
      else if !IsSymbol(q[2]) then None
      else
        var v2 := SymbolValue(q[2]);
        var y: byte := (v1 % 16) * 16 + v2 / 4;
        if q[3] == '=' then Some([x, y])
        else if !IsSymbol(q[3]) then None
        else
          var v3 := SymbolValue(q[3]);
          var z: byte := (v2 % 4) * 64 + v3;
          Some([x, y, z])
  }

  /** The decoder that inverts `Encode`. */
  function Decode(s: string): Option<seq<byte>>
    decreases |s|
  {
    if |s| == 0 then Some([])
    else if |s| < 4 then None
    else
      match DecodeBlock(s[..4])
      case None => None
      case Some(head) =>
        match Decode(s[4..])
        case None => None
        case Some(tail) => Some(head + tail)
  }

  /** The 6-bit values of a group recombine into its three bytes. */
  lemma GroupArith(a: byte, b: byte, c: byte)
    ensures var v0, v1, v2, v3 := a / 4, (a % 4) * 16 + b / 16, (b % 16) * 4 + c / 64, c % 64;
      v0 * 4 + v1 / 16 == a && (v1 % 16) * 16 + v2 / 4 == b && (v2 % 4) * 64 + v3 == c
  {
    var v1, v2 := (a % 4) * 16 + b / 16, (b % 16) * 4 + c / 64;
    assert v1 / 16 == a % 4 && v1 % 16 == b / 16;
    assert v2 / 4 == b % 16 && v2 % 4 == c / 64;
  }

  lemma GroupRoundTrip(a: byte, b: byte, c: byte)
    ensures DecodeBlock(EncodeGroup(a, b, c)) == Some([a, b, c])
  {
    var v0, v1, v2, v3 := a / 4, (a % 4) * 16 + b / 16, (b % 16) * 4 + c / 64, c % 64;
    SymbolInjective(v0);
    SymbolInjective(v1);
    SymbolInjective(v2);
    SymbolInjective(v3);
    GroupArith(a, b, c);
    assert EncodeGroup(a, b, c) == [Symbol(v0), Symbol(v1), Symbol(v2), Symbol(v3)];
  }

  lemma TailOneRoundTrip(a: byte)
    ensures DecodeBlock(Encode([a])) == Some([a])
  {
    var v0, v1 := a / 4, (a % 4) * 16;
    SymbolInjective(v0);
    SymbolInjective(v1);
    assert Encode([a]) == [Symbol(v0), Symbol(v1), '=', '='];
    assert v0 * 4 + v1 / 16 == a;
  }

  lemma TailTwoRoundTrip(a: byte, b: byte)
    ensures DecodeBlock(Encode([a, b])) == Some([a, b])
  {
    var v0, v1, v2 := a / 4, (a % 4) * 16 + b / 16, (b % 16) * 4;
    SymbolInjective(v0);
    SymbolInjective(v1);
    SymbolInjective(v2);
    assert Encode([a, b]) == [Symbol(v0), Symbol(v1), Symbol(v2), '='];
    assert v0 * 4 + v1 / 16 == a;
    assert (v1 % 16) * 16 + v2 / 4 == b;
  }

  /** Decoding reads the first block, then the rest. */
  lemma DecodeAppend(q: string, rest: string)
    requires |q| == 4 && DecodeBlock(q).Some? && Decode(rest).Some?
    ensures Decode(q + rest) == Some(DecodeBlock(q).value + Decode(rest).value)
  {
    var s := q + rest;
    assert s[..4] == q && s[4..] == rest;
  }

  /** A padded last block decodes to the one or two bytes it encodes. */
  lemma DecodeEncodeTail(bs: seq<byte>)
    requires 1 <= |bs| <= 2
    ensures Decode(Encode(bs)) == Some(bs)
  {
    if |bs| == 1 {
      assert [bs[0]] == bs;
      TailOneRoundTrip(bs[0]);
    } else {
      assert [bs[0], bs[1]] == bs;
      TailTwoRoundTrip(bs[0], bs[1]);
    }
    var s := Encode(bs);
    assert DecodeBlock(s) == Some(bs);
    assert Decode("") == Some([]);
    DecodeAppend(s, "");
    assert s + "" == s && bs + [] == bs;
  }

  /** Decoding an encoding gives back the bytes. */
  lemma {:induction false} DecodeEncode(bs: seq<byte>)
    ensures Decode(Encode(bs)) == Some(bs)
    decreases |bs|
  {
    if 1 <= |bs| <= 2 {
      DecodeEncodeTail(bs);
    } else if |bs| > 2 {
      assert [bs[0], bs[1], bs[2]] + bs[3..] == bs;
      var g := EncodeGroup(bs[0], bs[1], bs[2]);
      assert Encode(bs) == g + Encode(bs[3..]);
      GroupRoundTrip(bs[0], bs[1], bs[2]);
      DecodeEncode(bs[3..]);
      DecodeAppend(g, Encode(bs[3..]));
    }
  }

  /** The encoding uses only the alphabet, with `=` confined to the last block. */
  lemma {:induction false} EncodeAlphabet(bs: seq<byte>)
    ensures forall i :: 0 <= i < |Encode(bs)| ==>
      IsSymbol(Encode(bs)[i]) || (Encode(bs)[i] == '=' && i >= |Encode(bs)| - 2)
    decreases |bs|
  {
    if |bs| >= 3 {
      var s := Encode(bs);
      var g := EncodeGroup(bs[0], bs[1], bs[2]);
      assert s == g + Encode(bs[3..]);
      EncodeAlphabet(bs[3..]);
      forall i | 0 <= i < |s|
        ensures IsSymbol(s[i]) || (s[i] == '=' && i >= |s| - 2)
      {
        if i >= 4 { assert s[i] == Encode(bs[3..])[i - 4]; }
      }
    }
  }
}
