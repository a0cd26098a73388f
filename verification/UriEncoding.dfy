/** `encode_uri_component` (looper-github): percent-encoding as in sections 2.1 and 2.3 of RFC 3986. */
module UriEncoding {
  import opened Wrappers

  type Byte = b: nat | b < 256

  /** ALPHA / DIGIT / "-" / "." / "_" / "~" */
  predicate IsUnreserved(c: char) {
    'A' <= c <= 'Z' || 'a' <= c <= 'z' || '0' <= c <= '9' || c == '-' || c == '_' || c == '.' || c == '~'
  }

  function HexDigit(d: nat): char
    requires d < 16
  {
    if d < 10 then ('0' as int + d) as char else ('A' as int + (d - 10)) as char
  }

  function EncodeByte(b: Byte): string {
    if IsUnreserved(b as char) then [b as char]
    else if b as char == ' ' then "%20"
    else ['%', HexDigit(b / 16), HexDigit(b % 16)]
  }

  function Encode(bytes: seq<Byte>): string {
    if bytes == [] then "" else EncodeByte(bytes[0]) + Encode(bytes[1..])
  }

  lemma EncodeFrom(bytes: seq<Byte>, i: nat)
    requires i < |bytes|
    ensures Encode(bytes[i..]) == EncodeByte(bytes[i]) + Encode(bytes[i + 1..])
  {
    assert bytes[i..][1..] == bytes[i + 1..];
  }

  method EncodeUriComponent(bytes: seq<Byte>) returns (result: string)
    ensures result == Encode(bytes)
  {
    hide Encode, HexDigit, IsUnreserved;
    result := "";
    for i := 0 to |bytes|
      invariant Encode(bytes) == result + Encode(bytes[i..])
    {
      var byte := bytes[i];
      EncodeFrom(bytes, i);
      ghost var before := result;
      if IsUnreserved(byte as char) {
        result := result + [byte as char];
      } else if byte as char == ' ' {
        result := result + "%20";
      } else {
        result := result + ['%', HexDigit(byte / 16), HexDigit(byte % 16)];
      }
      assert result == before + EncodeByte(byte);
    }
    EncodeNothing();
    assert bytes[|bytes|..] == [];
  }

  lemma EncodeNothing()
    ensures Encode([]) == ""
  {
  }

  // ----- Decoding -----

  /** HEXDIG, in either case. */
  function HexValue(c: char): Option<nat> {
    if '0' <= c <= '9' then Some(c as int - '0' as int)
    else if 'A' <= c <= 'F' then Some(c as int - 'A' as int + 10)
    else if 'a' <= c <= 'f' then Some(c as int - 'a' as int + 10)
    else None
  }

  /** "%" HEXDIG HEXDIG stands for a byte; every other character below 256 for itself. */
  function Decode(s: string): Option<seq<Byte>> {
    if s == "" then Some([])
    else if s[0] == '%' then
      if |s| < 3 then None
      else
        match (HexValue(s[1]), HexValue(s[2]), Decode(s[3..]))
        case (Some(h), Some(l), Some(rest)) => if 16 * h + l < 256 then Some([16 * h + l] + rest) else None
        case (None, _, _) => None
        case (_, None, _) => None
        case (_, _, None) => None
    else if s[0] as int >= 256 then None
    else
      match Decode(s[1..])
      case Some(rest) => Some([s[0] as int] + rest)
      case None => None
  }

  lemma HexOfDigit(d: nat)
    requires d < 16
    ensures HexValue(HexDigit(d)) == Some(d)
  {
  }

  lemma DecodeByte(b: Byte, rest: string)
    requires Decode(rest).Some?
    ensures Decode(EncodeByte(b) + rest) == Some([b] + Decode(rest).value)
  {
    var s := EncodeByte(b) + rest;
    if IsUnreserved(b as char) {
      assert s[1..] == rest;
    } else {
      HexOfDigit(b / 16);
      HexOfDigit(b % 16);
      assert b as char == ' ' ==> b == 32;
      assert s[0] == '%' && s[1] == HexDigit(b / 16) && s[2] == HexDigit(b % 16);
      assert s[3..] == rest;
    }
  }

  /** Decoding undoes encoding, for every string of bytes. */
  lemma {:induction false} DecodeOfEncode(bytes: seq<Byte>)
    ensures Decode(Encode(bytes)) == Some(bytes)
  {
    if bytes != [] {
      DecodeOfEncode(bytes[1..]);
      DecodeByte(bytes[0], Encode(bytes[1..]));
      assert bytes == [bytes[0]] + bytes[1..];
    }
  }

  /** Different byte strings never get the same encoding. */
  lemma EncodeIsInjective(a: seq<Byte>, b: seq<Byte>)
    ensures Encode(a) == Encode(b) ==> a == b
  {
    DecodeOfEncode(a);
    DecodeOfEncode(b);
  }

  lemma {:induction false} EncodeConcat(a: seq<Byte>, b: seq<Byte>)
    ensures Encode(a + b) == Encode(a) + Encode(b)
  {
    if a == [] {
      assert a + b == b;
    } else {
      assert (a + b)[1..] == a[1..] + b;
      EncodeConcat(a[1..], b);
    }
  }

  /** The output is a string of unreserved characters and upper-case "%XX" triples. */
  predicate WellEncoded(s: string) {
    if s == "" then true
    else if s[0] == '%' then |s| >= 3 && IsUpperHex(s[1]) && IsUpperHex(s[2]) && WellEncoded(s[3..])
    else IsUnreserved(s[0]) && WellEncoded(s[1..])
  }

  predicate IsUpperHex(c: char) {
    '0' <= c <= '9' || 'A' <= c <= 'F'
  }

  lemma {:induction false} EncodeIsWellEncoded(bytes: seq<Byte>)
    ensures WellEncoded(Encode(bytes))
    ensures |bytes| <= |Encode(bytes)| <= 3 * |bytes|
    ensures |Encode(bytes)| == |bytes| <==>
              forall k :: 0 <= k < |bytes| ==>
                || 'A' as int <= bytes[k] <= 'Z' as int || 'a' as int <= bytes[k] <= 'z' as int
                || '0' as int <= bytes[k] <= '9' as int || bytes[k] as char in ['-', '.', '_', '~']
  {
    if bytes != [] {
      var b, rest := bytes[0], Encode(bytes[1..]);
      var s := Encode(bytes);
      EncodeIsWellEncoded(bytes[1..]);
      assert bytes == [b] + bytes[1..];
      if IsUnreserved(b as char) {
        assert s[1..] == rest;
        assert forall k :: 0 < k < |bytes| ==> bytes[k] == bytes[1..][k - 1];
      } else {
        assert s[3..] == rest;
        assert !IsUnreserved(bytes[0] as char);
      }
    }
  }
}
