/** The application/x-www-form-urlencoded format of the WHATWG URL Standard:
    the serializer of section 5.2, which `URLSearchParams` uses to write a
    URL's query, and, as its partner, the parser of section 5.1 (stopped at
    the percent-decoded bytes, before UTF-8 decoding). */
module FormUrlencoded {

  newtype byte = b: int | 0 <= b < 256

  /** UTF-8 encoding of one scalar value. */
  function CharUtf8(c: char): (bs: seq<byte>)
    ensures 1 <= |bs| <= 4
    ensures c as int < 0x80 <==> |bs| == 1
    ensures c as int < 0x80 ==> bs == [c as int as byte]
    ensures c as int >= 0x80 ==> forall i :: 0 <= i < |bs| ==> bs[i] >= 0x80
  {
    var n := c as int;
    if n < 0x80 then [n as byte]
    else if n < 0x800 then [(0xC0 + n / 0x40) as byte, (0x80 + n % 0x40) as byte]
    else if n < 0x10000 then
      [(0xE0 + n / 0x1000) as byte, (0x80 + n / 0x40 % 0x40) as byte, (0x80 + n % 0x40) as byte]
    else
      [(0xF0 + n / 0x40000) as byte, (0x80 + n / 0x1000 % 0x40) as byte,
       (0x80 + n / 0x40 % 0x40) as byte, (0x80 + n % 0x40) as byte]
  }

  function Utf8Encode(s: string): (bs: seq<byte>)
    ensures |bs| >= |s|
  {
    if s == [] then [] else CharUtf8(s[0]) + Utf8Encode(s[1..])
  }

  // The nested percent-encode sets of section 1.3, each written as the
  // standard builds it from the one before.

  predicate InC0ControlSet(c: char) { c as int <= 0x1F || c as int > 0x7E }

  predicate InQuerySet(c: char)
  {
    InC0ControlSet(c) || c == ' ' || c == '"' || c == '#' || c == '<' || c == '>'
  }

  predicate InPathSet(c: char)
  {
    InQuerySet(c) || c == '?' || c == '^' || c == '`' || c == '{' || c == '}'
  }

  predicate InUserinfoSet(c: char)
  {
    InPathSet(c) || c == '/' || c == ':' || c == ';' || c == '=' || c == '@' ||
    ('[' <= c <= '^') || c == '|'
  }

  predicate InComponentSet(c: char)
  {
    InUserinfoSet(c) || ('$' <= c <= '&') || c == '+' || c == ','
  }

  predicate InFormSet(c: char)
  {
    InComponentSet(c) || c == '!' || ('\'' <= c <= ')') || c == '~'
  }

  /** The characters the serializer copies unchanged. */
  predicate IsLiteral(c: char)
  {
    ('a' <= c <= 'z') || ('A' <= c <= 'Z') || ('0' <= c <= '9') ||
    c == '*' || c == '-' || c == '.' || c == '_'
  }

  /** The characters that can appear in an encoded name or value. */
  predicate IsEncodedChar(c: char) { IsLiteral(c) || c == '+' || c == '%' }

  lemma FormSetComplement(c: char)
    ensures !InFormSet(c) <==> IsLiteral(c)
  {
  }

  predicate IsHexDigit(c: char) { ('0' <= c <= '9') || ('A' <= c <= 'F') || ('a' <= c <= 'f') }

  function HexValue(c: char): (v: int)
    requires IsHexDigit(c)
    ensures 0 <= v < 16
  {
    if '0' <= c <= '9' then c as int - '0' as int
    else if 'A' <= c <= 'F' then c as int - 'A' as int + 10
    else c as int - 'a' as int + 10
  }

  /** An ASCII upper hex digit. */
  function HexDigit(d: int): (c: char)
    requires 0 <= d < 16
    ensures IsHexDigit(c) && HexValue(c) == d && IsLiteral(c)
  {
    if d < 10 then ('0' as int + d) as char else ('A' as int + d - 10) as char
  }

  /** "%" followed by the two upper hex digits of each byte. */
  function PercentEncodeBytes(bs: seq<byte>): (s: string)
    ensures |s| == 3 * |bs|
  {
    if bs == [] then []
    else ['%', HexDigit(bs[0] as int / 16), HexDigit(bs[0] as int % 16)] + PercentEncodeBytes(bs[1..])
  }

  lemma {:induction false} PercentEncodeAlphabet(bs: seq<byte>)
    ensures forall i :: 0 <= i < |PercentEncodeBytes(bs)| ==> IsEncodedChar(PercentEncodeBytes(bs)[i])
  {
    if bs != [] {
      PercentEncodeAlphabet(bs[1..]);
      var b := bs[0] as int;
      var head := ['%', HexDigit(b / 16), HexDigit(b % 16)];
      var tail := PercentEncodeBytes(bs[1..]);
      assert PercentEncodeBytes(bs) == head + tail;
      forall i | 0 <= i < |head + tail| ensures IsEncodedChar((head + tail)[i]) {
        if i >= 3 { assert (head + tail)[i] == tail[i - 3]; }
      }
    }
  }

  /** "Percent-encode after encoding" of one character, with UTF-8, the
      application/x-www-form-urlencoded percent-encode set and
      spaceAsPlus set. */
  function EncodeChar(c: char): (s: string)
    ensures |s| >= 1
  {
    if c == ' ' then "+"
    else if !InFormSet(c) then [c]
    else PercentEncodeBytes(CharUtf8(c))
  }

  lemma EncodeCharAlphabet(c: char)
    ensures forall i :: 0 <= i < |EncodeChar(c)| ==> IsEncodedChar(EncodeChar(c)[i])
  {
    if c != ' ' && InFormSet(c) {
      PercentEncodeAlphabet(CharUtf8(c));
    } else if c != ' ' {
      FormSetComplement(c);
    }
  }

  function EncodeComponent(s: string): string
  {
    if s == [] then [] else EncodeChar(s[0]) + EncodeComponent(s[1..])
  }

  lemma {:induction false} EncodeComponentAlphabet(s: string)
    ensures forall i :: 0 <= i < |EncodeComponent(s)| ==> IsEncodedChar(EncodeComponent(s)[i])
  {
    if s != [] {
      EncodeComponentAlphabet(s[1..]);
      EncodeCharAlphabet(s[0]);
      var head, tail := EncodeChar(s[0]), EncodeComponent(s[1..]);
      assert EncodeComponent(s) == head + tail;
      forall i | 0 <= i < |head + tail| ensures IsEncodedChar((head + tail)[i]) {
        if i >= |head| { assert (head + tail)[i] == tail[i - |head|]; }
      }
    }
  }

  /** A string made only of literal characters encodes to itself. */
  lemma {:induction false} EncodeLiteral(s: string)
    requires forall i :: 0 <= i < |s| ==> IsLiteral(s[i])
    ensures EncodeComponent(s) == s
  {
    if s != [] {
      FormSetComplement(s[0]);
      EncodeLiteral(s[1..]);
      assert s == [s[0]] + s[1..];
    }
  }

  /** One name-value tuple as it appears in the output, "name=value". */
  function SerializePair(name: string, value: string): string
  {
    EncodeComponent(name) + "=" + EncodeComponent(value)
  }

  predicate LiteralText(s: string) { forall i :: 0 <= i < |s| ==> IsLiteral(s[i]) }

  /** A tuple made of literal characters is written as "name=value". */
  lemma LiteralPair(name: string, value: string)
    requires LiteralText(name) && LiteralText(value)
    ensures SerializePair(name, value) == name + "=" + value
  {
    EncodeLiteral(name);
    EncodeLiteral(value);
  }

  /** The tuples written out plainly: "name=value" for each, joined by "&". */
  function PlainJoin(tuples: seq<(string, string)>): string
  {
    if tuples == [] then ""
    else tuples[0].0 + "=" + tuples[0].1 + (if |tuples| == 1 then "" else "&" + PlainJoin(tuples[1..]))
  }

  /** The encoded tuples, one "name=value" piece per tuple, in order. */
  function EncodedPairs(tuples: seq<(string, string)>): (pieces: seq<string>)
    ensures |pieces| == |tuples|
  {
    if tuples == [] then []
    else [SerializePair(tuples[0].0, tuples[0].1)] + EncodedPairs(tuples[1..])
  }

  lemma {:induction false} EncodedPairsAt(tuples: seq<(string, string)>, i: nat)
    requires i < |tuples|
    ensures EncodedPairs(tuples)[i] == SerializePair(tuples[i].0, tuples[i].1)
  {
    if i > 0 {
      EncodedPairsAt(tuples[1..], i - 1);
    }
  }

  /** The output loop of the serializer: for each piece in order, an "&"
      if the output is not empty, then the piece. */
  function JoinPieces(pieces: seq<string>): (output: string)
    ensures pieces == [] ==> output == ""
    ensures pieces != [] && pieces[|pieces| - 1] != "" ==> output != ""
  {
    if pieces == [] then ""
    else
      var prefix := JoinPieces(pieces[..|pieces| - 1]);
      (if prefix == "" then "" else prefix + "&") + pieces[|pieces| - 1]
  }

  /** The output loop one step further: the next piece goes after an "&"
      unless the output so far is empty. */
  lemma JoinPrefixStep(pieces: seq<string>, i: nat)
    requires i < |pieces|
    ensures JoinPieces(pieces[..i + 1]) ==
              (if JoinPieces(pieces[..i]) == "" then "" else JoinPieces(pieces[..i]) + "&") + pieces[i]
  {
    assert pieces[..i + 1][..i] == pieces[..i];
  }

  /** The serializer of section 5.2 of the WHATWG URL Standard. */
  function Serialize(tuples: seq<(string, string)>): (output: string)
    ensures output == "" <==> tuples == []
  {
    var pieces := EncodedPairs(tuples);
    if tuples == [] then JoinPieces(pieces)
    else
      EncodedPairsAt(tuples, |tuples| - 1);
      JoinPieces(pieces)
  }

  /** The output loop read from the front: the first piece, then "&" and
      the rest, when no piece is empty. */
  lemma {:induction false} JoinCons(p: string, rest: seq<string>)
    requires p != ""
    requires forall i :: 0 <= i < |rest| ==> rest[i] != ""
    ensures rest == [] ==> JoinPieces([p] + rest) == p
    ensures rest != [] ==> JoinPieces([p] + rest) == p + "&" + JoinPieces(rest)
    decreases |rest|
  {
    var all := [p] + rest;
    if rest != [] {
      var n := |rest|;
      var init, last := rest[..n - 1], rest[n - 1];
      JoinCons(p, init);
      var prefix := JoinPieces([p] + init);
      assert JoinPieces(all) == prefix + "&" + last by {
        assert all[..|all| - 1] == [p] + init;
        assert all[|all| - 1] == last;
      }
      if n == 1 {
        assert JoinPieces(rest) == last by {
          assert rest[..n - 1] == [];
        }
      } else {
        assert JoinPieces(rest) == JoinPieces(init) + "&" + last by {
          assert init[n - 2] == rest[n - 2];
        }
      }
    } else {
      assert all[..|all| - 1] == [];
    }
  }

  /** The serializer read from the front: the first tuple, then "&" and the
      rest. */
  lemma SerializeCons(t: (string, string), rest: seq<(string, string)>)
    ensures rest == [] ==> Serialize([t] + rest) == SerializePair(t.0, t.1)
    ensures rest != [] ==> Serialize([t] + rest) == SerializePair(t.0, t.1) + "&" + Serialize(rest)
  {
    var others := EncodedPairs(rest);
    assert ([t] + rest)[1..] == rest;
    forall i | 0 <= i < |others| ensures others[i] != "" {
      EncodedPairsAt(rest, i);
    }
    JoinCons(SerializePair(t.0, t.1), others);
  }

  /** When no name or value needs escaping, the serializer writes the
      tuples plainly. */
  lemma {:induction false} SerializeLiteral(tuples: seq<(string, string)>)
    requires forall i :: 0 <= i < |tuples| ==> LiteralText(tuples[i].0) && LiteralText(tuples[i].1)
    ensures Serialize(tuples) == PlainJoin(tuples)
  {
    if tuples != [] {
      var t, rest := tuples[0], tuples[1..];
      var plain := t.0 + "=" + t.1;
      assert SerializePair(t.0, t.1) == plain by {
        LiteralPair(t.0, t.1);
      }
      assert tuples == [t] + rest;
      SerializeCons(t, rest);
      if rest != [] {
        assert Serialize(rest) == PlainJoin(rest) by {
          SerializeLiteral(rest);
        }
      }
    }
  }

  /** Two literal tuples are written "name=value&name=value". */
  lemma SerializeTwoLiteral(a: (string, string), b: (string, string))
    requires LiteralText(a.0) && LiteralText(a.1) && LiteralText(b.0) && LiteralText(b.1)
    ensures Serialize([a, b]) == a.0 + "=" + a.1 + "&" + b.0 + "=" + b.1
  {
    var t := [a, b];
    assert Serialize(t) == PlainJoin(t) by {
      SerializeLiteral(t);
    }
    assert PlainJoin(t[1..]) == b.0 + "=" + b.1;
  }

  lemma {:induction false} JoinAlphabet(pieces: seq<string>)
    requires forall k, i :: 0 <= k < |pieces| && 0 <= i < |pieces[k]| ==> IsEncodedChar(pieces[k][i]) || pieces[k][i] == '='
    ensures forall i :: 0 <= i < |JoinPieces(pieces)| ==>
              IsEncodedChar(JoinPieces(pieces)[i]) || JoinPieces(pieces)[i] in "&="
  {
    if pieces != [] {
      JoinAlphabet(pieces[..|pieces| - 1]);
    }
  }

  lemma SerializeAlphabet(tuples: seq<(string, string)>)
    ensures forall i :: 0 <= i < |Serialize(tuples)| ==>
              IsEncodedChar(Serialize(tuples)[i]) || Serialize(tuples)[i] in "&="
  {
    var pieces := EncodedPairs(tuples);
    forall k, i | 0 <= k < |pieces| && 0 <= i < |pieces[k]|
      ensures IsEncodedChar(pieces[k][i]) || pieces[k][i] == '='
    {
      EncodedPairsAt(tuples, k);
      EncodeComponentAlphabet(tuples[k].0);
      EncodeComponentAlphabet(tuples[k].1);
    }
    JoinAlphabet(pieces);
  }

  // The parser of section 5.1 of the WHATWG URL Standard, on the
  // serializer's output.

  function IndexOf(s: string, c: char): (i: nat)
    requires c in s
    ensures i < |s| && s[i] == c && c !in s[..i]
  {
    if s[0] == c then 0 else 1 + IndexOf(s[1..], c)
  }

  /** The pieces of `s` between occurrences of `sep`. */
  function SplitOn(s: string, sep: char): (pieces: seq<string>)
    ensures |pieces| >= 1
    decreases |s|
  {
    if sep !in s then [s]
    else
      var i := IndexOf(s, sep);
      [s[..i]] + SplitOn(s[i + 1..], sep)
  }

  /** "+" becomes a space byte, "%" and two hex digits become that byte, any
      other character its UTF-8 bytes. */
  function DecodeComponent(s: string): seq<byte>
    decreases |s|
  {
    if s == [] then []
    else if s[0] == '+' then [0x20] + DecodeComponent(s[1..])
    else if s[0] == '%' && |s| >= 3 && IsHexDigit(s[1]) && IsHexDigit(s[2]) then
      [(HexValue(s[1]) * 16 + HexValue(s[2])) as byte] + DecodeComponent(s[3..])
    else CharUtf8(s[0]) + DecodeComponent(s[1..])
  }

  /** A piece splits at its first "=" into the name and the value. */
  function ParsePiece(piece: string): (seq<byte>, seq<byte>)
  {
    if '=' in piece then
      var i := IndexOf(piece, '=');
      (DecodeComponent(piece[..i]), DecodeComponent(piece[i + 1..]))
    else (DecodeComponent(piece), [])
  }

  function ParsePieces(pieces: seq<string>): seq<(seq<byte>, seq<byte>)>
  {
    if pieces == [] then []
    else if pieces[0] == "" then ParsePieces(pieces[1..])
    else [ParsePiece(pieces[0])] + ParsePieces(pieces[1..])
  }

  function Parse(input: string): seq<(seq<byte>, seq<byte>)>
  {
    ParsePieces(SplitOn(input, '&'))
  }

  /** The bytes each tuple's name and value stand for. */
  function Utf8Tuples(tuples: seq<(string, string)>): (r: seq<(seq<byte>, seq<byte>)>)
    ensures |r| == |tuples|
    ensures forall i :: 0 <= i < |tuples| ==> r[i] == (Utf8Encode(tuples[i].0), Utf8Encode(tuples[i].1))
  {
    if tuples == [] then []
    else [(Utf8Encode(tuples[0].0), Utf8Encode(tuples[0].1))] + Utf8Tuples(tuples[1..])
  }

  lemma DecodeEscape(hi: char, lo: char, tail: string)
    requires IsHexDigit(hi) && IsHexDigit(lo)
    ensures DecodeComponent(['%', hi, lo] + tail) == [(HexValue(hi) * 16 + HexValue(lo)) as byte] + DecodeComponent(tail)
  {
    var s := ['%', hi, lo] + tail;
    assert s[0] == '%' && s[1] == hi && s[2] == lo && s[3..] == tail;
  }

  /** The two hex digits written for a byte read back as that byte. */
  lemma HexPair(b: byte)
    ensures (HexValue(HexDigit(b as int / 16)) * 16 + HexValue(HexDigit(b as int % 16))) as byte == b
  {
  }

  lemma {:induction false} DecodePercentBytes(bs: seq<byte>, rest: string)
    ensures DecodeComponent(PercentEncodeBytes(bs) + rest) == bs + DecodeComponent(rest)
  {
    if bs != [] {
      var b := bs[0];
      var hi, lo := HexDigit(b as int / 16), HexDigit(b as int % 16);
      var tail := PercentEncodeBytes(bs[1..]) + rest;
      calc {
        DecodeComponent(PercentEncodeBytes(bs) + rest);
      == { assert PercentEncodeBytes(bs) + rest == ['%', hi, lo] + tail; }
        DecodeComponent(['%', hi, lo] + tail);
      == { DecodeEscape(hi, lo, tail); HexPair(b); }
        [b] + DecodeComponent(tail);
      == { DecodePercentBytes(bs[1..], rest); }
        [b] + (bs[1..] + DecodeComponent(rest));
      == { assert [b] + bs[1..] == bs; }
        bs + DecodeComponent(rest);
      }
    } else {
      assert PercentEncodeBytes(bs) + rest == rest;
    }
  }

  lemma DecodeEncodeChar(c: char, rest: string)
    ensures DecodeComponent(EncodeChar(c) + rest) == CharUtf8(c) + DecodeComponent(rest)
  {
    if c == ' ' {
      assert (EncodeChar(c) + rest)[1..] == rest;
    } else if !InFormSet(c) {
      assert (EncodeChar(c) + rest)[1..] == rest;
    } else {
      DecodePercentBytes(CharUtf8(c), rest);
    }
  }

  /** Decoding an encoded name or value gives back its UTF-8 bytes. */
  lemma {:induction false} DecodeEncode(s: string)
    ensures DecodeComponent(EncodeComponent(s)) == Utf8Encode(s)
  {
    if s != [] {
      DecodeEncodeChar(s[0], EncodeComponent(s[1..]));
      DecodeEncode(s[1..]);
    }
  }

  lemma {:induction false} IndexOfAfter(a: string, c: char, b: string)
    requires c !in a
    ensures IndexOf(a + [c] + b, c) == |a|
  {
    if a != [] {
      assert (a + [c] + b)[1..] == a[1..] + [c] + b;
      IndexOfAfter(a[1..], c, b);
    }
  }

  lemma SplitAfterFirst(a: string, sep: char, b: string)
    requires sep !in a
    ensures SplitOn(a + [sep] + b, sep) == [a] + SplitOn(b, sep)
  {
    var s := a + [sep] + b;
    assert s[|a|] == sep;
    IndexOfAfter(a, sep, b);
    assert s[..|a|] == a;
    assert s[|a| + 1..] == b;
  }

  lemma ParseOnePiece(name: string, value: string)
    ensures ParsePiece(SerializePair(name, value)) == (Utf8Encode(name), Utf8Encode(value))
  {
    var en, ev := EncodeComponent(name), EncodeComponent(value);
    var piece := SerializePair(name, value);
    EncodeComponentAlphabet(name);
    assert '=' !in en;
    assert piece == en + ['='] + ev;
    IndexOfAfter(en, '=', ev);
    assert piece[..|en|] == en;
    assert piece[|en| + 1..] == ev;
    DecodeEncode(name);
    DecodeEncode(value);
  }

  /** An encoded tuple is never empty and holds no "&". */
  lemma PairHasNoAmpersand(name: string, value: string)
    ensures SerializePair(name, value) != ""
    ensures '&' !in SerializePair(name, value)
  {
    EncodeComponentAlphabet(name);
    EncodeComponentAlphabet(value);
  }

  /** A first piece without "&" is parsed on its own, before the rest. */
  lemma ParseFirstPiece(piece: string, rest: string)
    requires piece != "" && '&' !in piece
    ensures Parse(piece + "&" + rest) == [ParsePiece(piece)] + Parse(rest)
  {
    SplitAfterFirst(piece, '&', rest);
    assert piece + "&" + rest == piece + ['&'] + rest;
    var others := SplitOn(rest, '&');
    assert ([piece] + others)[1..] == others;
  }

  lemma ParseOnlyPiece(piece: string)
    requires piece != "" && '&' !in piece
    ensures Parse(piece) == [ParsePiece(piece)]
  {
    assert SplitOn(piece, '&') == [piece];
    assert [piece][1..] == [];
    assert ParsePieces([piece]) == [ParsePiece(piece)] + ParsePieces([]);
  }

  /** Parsing the serializer's output gives back every tuple, in order, as
      the UTF-8 bytes of its name and value. */
  lemma {:induction false} ParseSerialize(tuples: seq<(string, string)>)
    ensures Parse(Serialize(tuples)) == Utf8Tuples(tuples)
  {
    if tuples == [] {
      assert SplitOn("", '&') == [""];
    } else {
      var t, rest := tuples[0], tuples[1..];
      assert tuples == [t] + rest;
      SerializeCons(t, rest);
      var piece := SerializePair(t.0, t.1);
      PairHasNoAmpersand(t.0, t.1);
      ParseOnePiece(t.0, t.1);
      assert Utf8Tuples(tuples) == [(Utf8Encode(t.0), Utf8Encode(t.1))] + Utf8Tuples(rest);
      if rest == [] {
        ParseOnlyPiece(piece);
      } else {
        ParseFirstPiece(piece, Serialize(rest));
        ParseSerialize(rest);
      }
    }
  }
}
