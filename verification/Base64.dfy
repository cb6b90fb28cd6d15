/** The decoder for inquiry data, which the toolstack stores in base 64 (section 4 of RFC 4648). */
module Base64 {
  import opened Basics

  const PAD: char := '='

  // ---------------------------------------------------------------- the encoding, as the RFC has it

  predicate InAlphabet(c: char) {
    'A' <= c <= 'Z' || 'a' <= c <= 'z' || '0' <= c <= '9' || c == '+' || c == '/'
  }

  function Digit(v: bv8): (c: char)
    requires v < 64
    ensures InAlphabet(c) && c != PAD
  {
    if v < 26 then 'A' + v as char
    else if v < 52 then 'a' + (v - 26) as char
    else if v < 62 then '0' + (v - 52) as char
    else if v == 62 then '+'
    else '/'
  }

  // How three bytes are cut into four groups of six bits.
  function Six0(a: bv8): (v: bv8) ensures v < 64 { a >> 2 }
  function Six1(a: bv8, b: bv8): (v: bv8) ensures v < 64 { ((a & 3) << 4) | (b >> 4) }
  function Six2(b: bv8, c: bv8): (v: bv8) ensures v < 64 { ((b & 15) << 2) | (c >> 6) }
  function Six3(c: bv8): (v: bv8) ensures v < 64 { c & 63 }

  function EncodeBlock(b: seq<bv8>): (r: string)
    requires 1 <= |b| <= 3
    ensures |r| == 4
  {
    if |b| == 1 then [Digit(Six0(b[0])), Digit(Six1(b[0], 0)), PAD, PAD]
    else if |b| == 2 then [Digit(Six0(b[0])), Digit(Six1(b[0], b[1])), Digit(Six2(b[1], 0)), PAD]
    else [Digit(Six0(b[0])), Digit(Six1(b[0], b[1])), Digit(Six2(b[1], b[2])), Digit(Six3(b[2]))]
  }

  function Encode(b: seq<bv8>): (r: string)
    ensures |r| == (|b| + 2) / 3 * 4
  {
    if b == [] then [] else if |b| <= 3 then EncodeBlock(b) else EncodeBlock(b[..3]) + Encode(b[3..])
  }

  // ---------------------------------------------------------------- the decoder

  function DecodeChar(c: char): bv8 {
    if 'A' <= c <= 'Z' then (c - 'A') as bv8
    else if 'a' <= c <= 'z' then (c - 'a') as bv8 + 26
    else if '0' <= c <= '9' then (c - '0') as bv8 + 52
    else if c == '+' then 62
    else if c == '/' then 63
    else if c == PAD then 0
    else 0xFF
  }

  // How the driver puts the six bits of each digit together, in bytes.
  function Byte0(v0: bv8, v1: bv8): bv8 { (v1 >> 4) | (v0 << 2) }
  function Byte1(v1: bv8, v2: bv8): bv8 { (v2 >> 2) | (v1 << 4) }
  function Byte2(v2: bv8, v3: bv8): bv8 { v3 | (v2 << 6) }

  /** The bytes of four characters, unless they are not four digits, or three or two of them with
      padding. */
  function Bytes(c0: char, c1: char, c2: char, c3: char): (r: Option<seq<bv8>>)
    ensures r.Some? ==> 1 <= |r.value| <= 3
  {
    var v0, v1, v2, v3 := DecodeChar(c0), DecodeChar(c1), DecodeChar(c2), DecodeChar(c3);
    if c0 == PAD || c1 == PAD || (c2 == PAD && c3 != PAD) then None
    else if v0 == 0xFF || v1 == 0xFF || v2 == 0xFF || v3 == 0xFF then None
    else if c2 == PAD then Some([Byte0(v0, v1)])
    else if c3 == PAD then Some([Byte0(v0, v1), Byte1(v1, v2)])
    else Some([Byte0(v0, v1), Byte1(v1, v2), Byte2(v2, v3)])
  }

  function DecodeBlock(s: string): (r: Option<seq<bv8>>)
    requires |s| == 4
    ensures r.Some? ==> 1 <= |r.value| <= 3
  {
    Bytes(s[0], s[1], s[2], s[3])
  }

  /** What whole blocks decode to: only the last may be padded. */
  function Decoding(s: string): Option<seq<bv8>>
    requires |s| % 4 == 0
  {
    if s == [] then Some([])
    else
      var first := DecodeBlock(s[..4]);
      if first.None? || (|first.value| < 3 && |s| > 4) then None
      else
        var rest := Decoding(s[4..]);
        if rest.None? then None else Some(first.value + rest.value)
  }

  /** Decodes one block in place and tells how many bytes are missing, 0xFF for an invalid block. */
  method Decode(buffer: array<bv8>, at: nat, src: string, from: nat) returns (pad: nat)
    requires at + 3 <= buffer.Length && from + 4 <= |src|
    modifies buffer
    ensures buffer[..at] == old(buffer[..at])
    ensures var block := DecodeBlock(src[from..from + 4]);
            if block.None? then pad == 0xFF
            else pad == 3 - |block.value| && buffer[at..at + 3 - pad] == block.value
  {
    hide DecodeChar, Byte0, Byte1, Byte2;
    var v0, v1, v2, v3 :=
        DecodeChar(src[from]), DecodeChar(src[from + 1]), DecodeChar(src[from + 2]), DecodeChar(src[from + 3]);
    if src[from] == PAD || src[from + 1] == PAD || (src[from + 2] == PAD && src[from + 3] != PAD) {
      return 0xFF;
    }
    if v0 == 0xFF || v1 == 0xFF || v2 == 0xFF || v3 == 0xFF {
      return 0xFF;
    }
    buffer[at] := Byte0(v0, v1);
    if src[from + 2] == PAD {
      return 2;
    }
    buffer[at + 1] := Byte1(v1, v2);
    if src[from + 3] == PAD {
      return 1;
    }
    buffer[at + 2] := Byte2(v2, v3);
    return 0;
  }

  datatype Status = SUCCESS | UNSUCCESSFUL | INSUFFICIENT_RESOURCES

  /** Decodes as many whole blocks as there are; up to three characters after them are ignored. */
  method DecodeBase64(base64: string, enoughMemory: bool) returns (status: Status, buffer: array<bv8>, length: nat)
    ensures status == INSUFFICIENT_RESOURCES <==> !enoughMemory
    ensures var r := Decoding(Whole(base64));
      && (status == SUCCESS <==> enoughMemory && r.Some?)
      && (status == SUCCESS ==> length <= buffer.Length && buffer[..length] == r.value)
  {
    hide DecodeBlock, Decoding, DecodedSoFar;
    var blocks := |base64| / 4;
    ghost var whole := base64[..blocks * 4];
    buffer := new bv8[blocks * 3](_ => 0);
    length := 0;
    if !enoughMemory {
      return INSUFFICIENT_RESOURCES, buffer, 0;
    }
    var pad: nat := 0;
    ghost var done: seq<bv8> := [];
    NoBlocks(whole);
    for i := 0 to blocks
      invariant pad <= 2 && |done| == i * 3 - pad && buffer[..|done|] == done && DecodedSoFar(whole, i, pad, done)
    {
      if pad != 0 {
        PaddedTooEarly(whole, i, pad, done);
        return UNSUCCESSFUL, buffer, 0;
      }
      pad, done := DecodeNext(buffer, base64, i, blocks, done);
      if pad > 2 {
        return UNSUCCESSFUL, buffer, 0;
      }
    }
    AllBlocks(whole, pad, done);
    return SUCCESS, buffer, blocks * 3 - pad;
  }

  /** One turn of the loop: another block, after blocks without padding. */
  method DecodeNext(buffer: array<bv8>, base64: string, i: nat, blocks: nat, ghost done: seq<bv8>)
    returns (pad: nat, ghost next: seq<bv8>)
    requires i < blocks && blocks * 4 <= |base64| && buffer.Length == blocks * 3
    requires |done| == i * 3 && buffer[..|done|] == done && DecodedSoFar(base64[..blocks * 4], i, 0, done)
    modifies buffer
    ensures pad > 2 ==> Decoding(base64[..blocks * 4]) == None
    ensures pad <= 2 ==>
            |next| == (i + 1) * 3 - pad && buffer[..|next|] == next
                && DecodedSoFar(base64[..blocks * 4], i + 1, pad, next)
  {
    hide DecodeBlock, Decoding, DecodedSoFar;
    ghost var whole := base64[..blocks * 4];
    next := done;
    pad := Decode(buffer, i * 3, base64, i * 4);
    assert base64[i * 4..i * 4 + 4] == whole[i * 4..i * 4 + 4];
    if pad > 2 {
      InvalidBlock(whole, i, done);
    } else {
      ghost var block := buffer[i * 3..i * 3 + 3 - pad];
      NextBlock(whole, i, done, block);
      assert buffer[..|done| + |block|] == buffer[..|done|] + block;
      next := done + block;
    }
  }

  /** The first blocks have been decoded: what the whole decodes to depends on the rest alone. */
  ghost predicate DecodedSoFar(s: string, i: nat, pad: nat, done: seq<bv8>) {
    && |s| % 4 == 0 && i * 4 <= |s|
    && (pad == 0 ==>
        Decoding(s) == (var rest := Decoding(s[i * 4..]); if rest.None? then None else Some(done + rest.value)))
    && (pad != 0 ==> Decoding(s) == if i * 4 < |s| then None else Some(done))
  }

  lemma NoBlocks(s: string)
    requires |s| % 4 == 0
    ensures DecodedSoFar(s, 0, 0, [])
  {
    assert s[0..] == s;
    var r := Decoding(s);
    if r.Some? {
      assert [] + r.value == r.value;
    }
  }

  lemma PaddedTooEarly(s: string, i: nat, pad: nat, done: seq<bv8>)
    requires DecodedSoFar(s, i, pad, done) && pad != 0 && i * 4 < |s|
    ensures Decoding(s) == None
  {
  }

  lemma FirstBlock(s: string, i: nat)
    requires |s| % 4 == 0 && i * 4 < |s|
    ensures i * 4 + 4 <= |s|
    ensures s[i * 4..][..4] == s[i * 4..i * 4 + 4] && s[i * 4..][4..] == s[(i + 1) * 4..]
  {
  }

  lemma InvalidBlock(s: string, i: nat, done: seq<bv8>)
    requires DecodedSoFar(s, i, 0, done) && i * 4 + 4 <= |s| && DecodeBlock(s[i * 4..i * 4 + 4]).None?
    ensures Decoding(s) == None
  {
    FirstBlock(s, i);
  }

  lemma NextBlock(s: string, i: nat, done: seq<bv8>, block: seq<bv8>)
    requires DecodedSoFar(s, i, 0, done) && i * 4 + 4 <= |s| && DecodeBlock(s[i * 4..i * 4 + 4]) == Some(block)
    ensures 1 <= |block| <= 3 && DecodedSoFar(s, i + 1, 3 - |block|, done + block)
  {
    hide DecodeBlock, Decoding;
    FirstBlock(s, i);
    var t := s[i * 4..];
    OneBlock(t);
    if t[4..] == [] {
      assert block + [] == block;
    }
    var rest := Decoding(t[4..]);
    if rest.Some? {
      assert done + (block + rest.value) == done + block + rest.value;
    }
  }

  lemma OneBlock(t: string)
    requires |t| % 4 == 0 && t != []
    ensures var first, rest := DecodeBlock(t[..4]), Decoding(t[4..]);
            Decoding(t) == if first.None? || (|first.value| < 3 && t[4..] != []) || rest.None? then None
                           else Some(first.value + rest.value)
    ensures Decoding([]) == Some([])
  {
    hide DecodeBlock;
  }

  lemma AllBlocks(s: string, pad: nat, done: seq<bv8>)
    requires |s| % 4 == 0 && DecodedSoFar(s, |s| / 4, pad, done)
    ensures Decoding(s) == Some(done)
  {
    assert s[|s| / 4 * 4..] == [];
    assert done + [] == done;
  }

  // ---------------------------------------------------------------- round trips

  lemma CapitalRoundTrip(v: bv8)
    requires v < 26
    ensures DecodeChar('A' + v as char) == v
  {
  }

  lemma SmallRoundTrip(v: bv8)
    requires 26 <= v < 52
    ensures DecodeChar('a' + (v - 26) as char) == v
  {
  }

  lemma NumeralRoundTrip(v: bv8)
    requires 52 <= v < 62
    ensures DecodeChar('0' + (v - 52) as char) == v
  {
  }

  lemma DigitRoundTrip(v: bv8)
    requires v < 64
    ensures DecodeChar(Digit(v)) == v
  {
    if v < 26 {
      CapitalRoundTrip(v);
    } else if v < 52 {
      SmallRoundTrip(v);
    } else if v < 62 {
      NumeralRoundTrip(v);
    }
  }

  lemma BitsRoundTrip(a: bv8, b: bv8, c: bv8)
    ensures Byte0(Six0(a), Six1(a, b)) == a && Byte1(Six1(a, b), Six2(b, c)) == b && Byte2(Six2(b, c), Six3(c)) == c
  {
  }

  lemma BlockRoundTrip(b: seq<bv8>)
    requires 1 <= |b| <= 3
    ensures DecodeBlock(EncodeBlock(b)) == Some(b)
  {
    hide DecodeChar, Digit, Byte0, Byte1, Byte2, Six0, Six1, Six2, Six3;
    var b1, b2 := if |b| > 1 then b[1] else 0, if |b| > 2 then b[2] else 0;
    BitsRoundTrip(b[0], b1, b2);
    DigitRoundTrip(Six0(b[0]));
    DigitRoundTrip(Six1(b[0], b1));
    DigitRoundTrip(Six2(b1, b2));
    DigitRoundTrip(Six3(b2));
    PadIsZero();
    assert b == if |b| == 1 then [b[0]] else if |b| == 2 then [b[0], b[1]] else [b[0], b[1], b[2]];
  }

  lemma PadIsZero()
    ensures DecodeChar(PAD) == 0
  {
  }

  /** Decoding undoes encoding, for all bytes. */
  lemma {:induction false} RoundTrip(b: seq<bv8>)
    ensures Decoding(Encode(b)) == Some(b)
    decreases |b|
  {
    hide DecodeBlock, EncodeBlock;
    if b == [] {
    } else if |b| <= 3 {
      BlockRoundTrip(b);
      assert Encode(b)[..4] == Encode(b) && Encode(b)[4..] == [];
      assert b + [] == b;
    } else {
      BlockRoundTrip(b[..3]);
      RoundTrip(b[3..]);
      assert Encode(b)[..4] == EncodeBlock(b[..3]) && Encode(b)[4..] == Encode(b[3..]);
      assert b[..3] + b[3..] == b;
    }
  }

  // ---------------------------------------------------------------- what is accepted

  /** Digits, and padding at most in the last two places. */
  predicate WellPadded(s: string) {
    forall i :: 0 <= i < |s| ==>
        InAlphabet(s[i]) || (s[i] == PAD && (i == |s| - 1 || (i == |s| - 2 && s[|s| - 1] == PAD)))
  }

  lemma ValidChars(c: char)
    ensures DecodeChar(c) == 0xFF <==> !InAlphabet(c) && c != PAD
    ensures DecodeChar(c) != 0xFF ==> DecodeChar(c) < 64
    ensures !InAlphabet(PAD)
  {
    hide DecodeChar;
    PadIsZero();
    PadIsNoDigit();
    if InAlphabet(c) {
      CharRoundTrip(c);
    } else if c != PAD {
      NoChar(c);
    }
  }

  lemma NoChar(c: char)
    requires !InAlphabet(c) && c != PAD
    ensures DecodeChar(c) == 0xFF
  {
  }

  lemma AcceptedBlock(s: string)
    requires |s| == 4
    ensures DecodeBlock(s).Some? <==> WellPadded(s)
    ensures DecodeBlock(s).Some? && |DecodeBlock(s).value| == 3 <==> forall i :: 0 <= i < 4 ==> InAlphabet(s[i])
  {
    hide DecodeChar, InAlphabet, Byte0, Byte1, Byte2;
    ValidChars(s[0]);
    ValidChars(s[1]);
    ValidChars(s[2]);
    ValidChars(s[3]);
    assert |s| - 1 == 3;
  }

  /** The decoder accepts whole blocks of digits with padding at the end of the last block, and
      nothing else. */
  lemma {:induction false} Accepted(s: string)
    requires |s| % 4 == 0
    ensures Decoding(s).Some? <==> WellPadded(s)
  {
    hide InAlphabet, DecodeBlock, Decoding;
    if s != [] {
      OneBlock(s);
      AcceptedBlock(s[..4]);
      Accepted(s[4..]);
      PadIsNoDigit();
      PaddingOfRest(s);
    } else {
      NothingDecodes();
    }
  }

  lemma NothingDecodes()
    ensures Decoding([]) == Some([])
  {
  }

  lemma PadIsNoDigit()
    ensures !InAlphabet(PAD)
  {
  }

  lemma PaddingOfRest(s: string)
    requires |s| >= 4 && |s| % 4 == 0 && !InAlphabet(PAD)
    ensures |s| == 4 ==> s[..4] == s && WellPadded(s[4..])
    ensures |s| > 4 ==> (WellPadded(s) <==> (forall i :: 0 <= i < 4 ==> InAlphabet(s[..4][i])) && WellPadded(s[4..]))
  {
    hide InAlphabet;
    var t := s[4..];
    assert forall i :: 0 <= i < |t| ==> t[i] == s[i + 4];
    if |s| > 4 && WellPadded(t) && forall i :: 0 <= i < 4 ==> InAlphabet(s[..4][i]) {
      forall i | 0 <= i < |s|
          ensures InAlphabet(s[i]) || (s[i] == PAD && (i == |s| - 1 || (i == |s| - 2 && s[|s| - 1] == PAD))) {
        if i < 4 {
          assert s[..4][i] == s[i];
        } else {
          assert t[i - 4] == s[i];
        }
      }
    }
  }

  /** The bits of the last digit that its padding leaves unused are zero. */
  predicate Canonical(s: string) {
    |s| >= 4 ==>
      var c1, c2, c3 := s[|s| - 3], s[|s| - 2], s[|s| - 1];
      && (c2 == PAD ==> DecodeChar(c1) & 15 == 0)
      && (c2 != PAD && c3 == PAD ==> DecodeChar(c2) & 3 == 0)
  }

  lemma ByteOf(n: int)
    requires 0 <= n < 26
    ensures (n as bv8) as int == n && (n as bv8) < 26
    ensures 26 <= (n as bv8) + 26 < 52 && (n as bv8) + 26 - 26 == n as bv8
    ensures n < 10 ==> 52 <= (n as bv8) + 52 < 62 && (n as bv8) + 52 - 52 == n as bv8
  {
  }

  lemma CharOf(c: char, first: char)
    requires first <= c && c as int - first as int < 26 && (first == 'A' || first == 'a' || first == '0')
    ensures first + ((c - first) as bv8) as char == c
  {
    ByteOf((c - first) as int);
  }

  lemma CapitalChar(c: char)
    requires 'A' <= c <= 'Z'
    ensures DecodeChar(c) < 26 && 'A' + DecodeChar(c) as char == c
  {
    ByteOf((c - 'A') as int);
    CharOf(c, 'A');
  }

  lemma SmallChar(c: char)
    requires 'a' <= c <= 'z'
    ensures 26 <= DecodeChar(c) < 52 && 'a' + (DecodeChar(c) - 26) as char == c
  {
    ByteOf((c - 'a') as int);
    CharOf(c, 'a');
  }

  lemma NumeralChar(c: char)
    requires '0' <= c <= '9'
    ensures 52 <= DecodeChar(c) < 62 && '0' + (DecodeChar(c) - 52) as char == c
  {
    ByteOf((c - '0') as int);
    CharOf(c, '0');
  }

  lemma SignChar(c: char)
    requires c == '+' || c == '/'
    ensures DecodeChar(c) == if c == '+' then 62 else 63
  {
  }

  lemma CharRoundTrip(c: char)
    requires InAlphabet(c)
    ensures DecodeChar(c) < 64 && Digit(DecodeChar(c)) == c
  {
    hide DecodeChar;
    if 'A' <= c <= 'Z' {
      CapitalChar(c);
    } else if 'a' <= c <= 'z' {
      SmallChar(c);
    } else if '0' <= c <= '9' {
      NumeralChar(c);
    } else {
      SignChar(c);
    }
  }

  lemma SixRoundTrip(v0: bv8, v1: bv8, v2: bv8, v3: bv8)
    requires v0 < 64 && v1 < 64 && v2 < 64 && v3 < 64
    ensures Six0(Byte0(v0, v1)) == v0 && Six1(Byte0(v0, v1), Byte1(v1, v2)) == v1
    ensures Six2(Byte1(v1, v2), Byte2(v2, v3)) == v2 && Six3(Byte2(v2, v3)) == v3
    ensures Six1(Byte0(v0, v1), 0) == v1 <==> v1 & 15 == 0
    ensures Six2(Byte1(v1, v2), 0) == v2 <==> v2 & 3 == 0
  {
  }

  lemma DigitIs(v: bv8, c: char)
    requires v < 64 && InAlphabet(c)
    ensures Digit(v) == c <==> v == DecodeChar(c)
  {
    hide DecodeChar, Digit, InAlphabet;
    CharRoundTrip(c);
    DigitRoundTrip(v);
  }

  lemma CanonicalBlock(s: string)
    requires |s| == 4 && DecodeBlock(s).Some?
    ensures EncodeBlock(DecodeBlock(s).value) == s <==> Canonical(s)
  {
    hide DecodeChar, Digit, InAlphabet, Byte0, Byte1, Byte2, Six0, Six1, Six2, Six3;
    AcceptedBlock(s);
    PadIsNoDigit();
    assert InAlphabet(s[0]) && InAlphabet(s[1]);
    var v0, v1, v2, v3 := DecodeChar(s[0]), DecodeChar(s[1]), DecodeChar(s[2]), DecodeChar(s[3]);
    ValidChars(s[0]);
    ValidChars(s[1]);
    ValidChars(s[2]);
    ValidChars(s[3]);
    SixRoundTrip(v0, v1, v2, v3);
    var b := DecodeBlock(s).value;
    var e := EncodeBlock(b);
    assert s == [s[0], s[1], s[2], s[3]];
    assert e == s <==> e[0] == s[0] && e[1] == s[1] && e[2] == s[2] && e[3] == s[3];
    DigitIs(Six0(b[0]), s[0]);
    DigitIs(Six1(b[0], if |b| > 1 then b[1] else 0), s[1]);
    if |b| > 1 {
      DigitIs(Six2(b[1], if |b| > 2 then b[2] else 0), s[2]);
    }
    if |b| > 2 {
      DigitIs(Six3(b[2]), s[3]);
    }
  }

  /** What whole blocks decode to encodes back to the same characters if and only if the unused bits
      are zero. */
  lemma {:induction false} ReencodesBlocks(s: string)
    requires |s| % 4 == 0 && Decoding(s).Some?
    ensures Encode(Decoding(s).value) == s <==> Canonical(s)
  {
    hide InAlphabet, DecodeBlock, Decoding, EncodeBlock, DecodeChar;
    NothingDecodes();
    if s != [] {
      OneBlock(s);
      var first, rest := DecodeBlock(s[..4]).value, Decoding(s[4..]).value;
      CanonicalBlock(s[..4]);
      if |s| == 4 {
        assert s[..4] == s && first + [] == first;
      } else {
        ReencodesBlocks(s[4..]);
        AcceptedBlock(s[..4]);
        PadIsNoDigit();
        var b := first + rest;
        DecodesSome(s[4..]);
        assert b[..3] == first && b[3..] == rest;
        assert s == s[..4] + s[4..];
        assert s[..4][3] == s[3] && s[..4][2] == s[2] && s[..4][1] == s[1];
      }
    }
  }

  /** The blocks of a text that the decoder takes; up to three characters after them are ignored. */
  function Whole(s: string): (w: string)
    ensures |w| % 4 == 0
  {
    s[..|s| / 4 * 4]
  }

  /** The decoder accepts more than the encoder makes: a text that it accepts encodes back to itself if
      and only if it ends with a whole block and the unused bits are zero. */
  lemma Reencodes(s: string)
    requires Decoding(Whole(s)).Some?
    ensures Encode(Decoding(Whole(s)).value) == s <==> |s| % 4 == 0 && Canonical(s)
  {
    hide Decoding, Encode, Canonical;
    ReencodesBlocks(Whole(s));
    assert |s| % 4 == 0 ==> Whole(s) == s;
    EncodedLength(Decoding(Whole(s)).value);
  }

  lemma EncodedLength(b: seq<bv8>)
    ensures |Encode(b)| % 4 == 0
  {
  }

  /** Two texts that the decoder accepts and no encoder makes. */
  method NotReencoded(s: string) returns (buffer: array<bv8>, length: nat)
    requires s == "AB==" || s == "QUJDx"
    ensures length <= buffer.Length && Decoding(Whole(s)) == Some(buffer[..length]) && Encode(buffer[..length]) != s
  {
    hide Decoding, Encode, InAlphabet, DecodeChar;
    Letters();
    assert Whole(s) == s[..4];
    Accepted(Whole(s));
    Reencodes(s);
    var status;
    status, buffer, length := DecodeBase64(s, true);
  }

  lemma Letters()
    ensures forall c :: 'A' <= c <= 'Z' ==> InAlphabet(c)
    ensures DecodeChar('B') == 1
  {
  }

  lemma DecodesSome(s: string)
    requires |s| % 4 == 0 && Decoding(s).Some? && s != []
    ensures Decoding(s).value != []
  {
    hide DecodeBlock;
  }
}
