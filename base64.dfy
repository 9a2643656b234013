/** `base64.standard_b64decode` applied to one `str` line of the corpus: the
    line is first turned into bytes with `str.encode('ascii')`, then decoded by
    CPython's non-validating `binascii.a2b_base64` over the standard alphabet
    of section 4 of RFC 4648. Characters outside the alphabet (the trailing
    newline among them) are skipped, a padding sequence ends the input, and an
    unfinished quantum is an error. */
module Base64 {

  type Byte = b: int | 0 <= b < 256

  /** Why decoding a line fails. `NonAscii` is the `ValueError` raised while
      encoding the line to ASCII; the other two are the `binascii.Error`s
      raised when the data characters end part-way through a quantum. */
  datatype DecodeError =
    | NonAscii           // a character above U+007F
    | ExcessCharacter    // one data character more than a multiple of 4
    | IncorrectPadding   // two or three data characters left over

  datatype DecodeResult = Decoded(bytes: seq<Byte>) | Failed(error: DecodeError)

  predicate InAlphabet(c: char) {
    ('A' <= c <= 'Z') || ('a' <= c <= 'z') || ('0' <= c <= '9') || c == '+' || c == '/'
  }

  /** The 6-bit value of an alphabet character (Table 1 of RFC 4648). */
  function Sextet(c: char): (v: int)
    requires InAlphabet(c)
    ensures 0 <= v < 64
  {
    if 'A' <= c <= 'Z' then c as int - 'A' as int
    else if 'a' <= c <= 'z' then c as int - 'a' as int + 26
    else if '0' <= c <= '9' then c as int - '0' as int + 52
    else if c == '+' then 62
    else 63
  }

  /** The alphabet character that stands for a 6-bit value. */
  function Symbol(v: int): (c: char)
    requires 0 <= v < 64
    ensures InAlphabet(c) && Sextet(c) == v
  {
    if v < 26 then ('A' as int + v) as char
    else if v < 52 then ('a' as int + v - 26) as char
    else if v < 62 then ('0' as int + v - 52) as char
    else if v == 62 then '+'
    else '/'
  }

  /** The decoder's registers: `quad` data characters of the current quantum
      have been read, `left` holds the bits of the last one not yet written
      out, and `pads` counts the `=` seen since the last data character. */
  datatype Scanner = Scanner(quad: int, left: int, pads: nat, out: seq<Byte>)

  ghost predicate Ready(st: Scanner) {
    match st.quad
    case 0 => st.left == 0
    case 1 => 0 <= st.left < 64
    case 2 => 0 <= st.left < 16
    case 3 => 0 <= st.left < 4
    case _ => false
  }

  function Start(out: seq<Byte>): (st: Scanner)
    ensures Ready(st)
  {
    Scanner(0, 0, 0, out)
  }

  /** Consumes one data character of value `v`: each character after the
      first of a quantum completes one byte. */
  function Feed(st: Scanner, v: int): (st': Scanner)
    requires Ready(st) && 0 <= v < 64
    ensures Ready(st') && st'.pads == 0
    ensures st'.quad == (st.quad + 1) % 4
    ensures |st'.out| == |st.out| + (if st.quad == 0 then 0 else 1)
    ensures st.out <= st'.out
  {
    match st.quad
    case 0 => Scanner(1, v, 0, st.out)
    case 1 => Scanner(2, v % 16, 0, st.out + [st.left * 4 + v / 16])
    case 2 => Scanner(3, v % 4, 0, st.out + [st.left * 16 + v / 4])
    case 3 => Scanner(0, 0, 0, st.out + [st.left * 64 + v])
  }

  /** The scanning loop of `a2b_base64` over the rest of the input `s`. */
  function Scan(s: string, st: Scanner): (r: DecodeResult)
    requires Ready(st)
    ensures r.Decoded? ==> st.out <= r.bytes
    ensures r.Failed? ==> r.error != NonAscii
    decreases |s|
  {
    if s == [] then
      if st.quad == 0 then Decoded(st.out)
      else if st.quad == 1 then Failed(ExcessCharacter)
      else Failed(IncorrectPadding)
    else if s[0] == '=' then
      // `quad_pos >= 2 && quad_pos + ++pads >= 4`: the count only moves
      // once two data characters of the quantum have been read
      if st.quad >= 2 && st.quad + st.pads + 1 >= 4 then Decoded(st.out)
      else Scan(s[1..], st.(pads := if st.quad >= 2 then st.pads + 1 else st.pads))
    else if InAlphabet(s[0]) then
      Scan(s[1..], Feed(st, Sextet(s[0])))
    else
      Scan(s[1..], st)
  }

  predicate IsAscii(s: string) {
    forall i | 0 <= i < |s| :: s[i] as int < 128
  }

  /** `base64.standard_b64decode(line)` for a `str` line. */
  function Decode(line: string): (r: DecodeResult)
    ensures r.Failed? && r.error == NonAscii <==> !IsAscii(line)
  {
    if !IsAscii(line) then Failed(NonAscii) else Scan(line, Start([]))
  }

  /** The four characters standing for three bytes. */
  function Group(b0: Byte, b1: Byte, b2: Byte): (s: string)
    ensures |s| == 4
  {
    [Symbol(b0 / 4), Symbol(b0 % 4 * 16 + b1 / 16), Symbol(b1 % 16 * 4 + b2 / 64), Symbol(b2 % 64)]
  }

  /** The characters standing for a final two bytes, padded with one `=`. */
  function PairTail(b0: Byte, b1: Byte): (s: string)
    ensures |s| == 4
  {
    [Symbol(b0 / 4), Symbol(b0 % 4 * 16 + b1 / 16), Symbol(b1 % 16 * 4), '=']
  }

  /** The characters standing for a final single byte, padded with `==`. */
  function ByteTail(b0: Byte): (s: string)
    ensures |s| == 4
  {
    [Symbol(b0 / 4), Symbol(b0 % 4 * 16), '=', '=']
  }

  /** `base64.standard_b64encode`: each group of three bytes becomes four
      characters, a final group of one or two bytes is padded with `=`. */
  function Encode(b: seq<Byte>): (s: string)
    ensures |s| == (|b| + 2) / 3 * 4
    decreases |b|
  {
    if |b| == 0 then ""
    else if |b| == 1 then ByteTail(b[0])
    else if |b| == 2 then PairTail(b[0], b[1])
    else Group(b[0], b[1], b[2]) + Encode(b[3..])
  }

  lemma {:induction false} EncodeIsAscii(b: seq<Byte>)
    ensures IsAscii(Encode(b))
    decreases |b|
  {
    if |b| >= 3 {
      EncodeIsAscii(b[3..]);
      var s := Encode(b);
      forall i | 0 <= i < |s| ensures s[i] as int < 128 {
        if i >= 4 { assert s[i] == Encode(b[3..])[i - 4]; }
      }
    }
  }

  /** One data character read by `Scan`: the scanner moves on by `Feed`. */
  lemma ScanData(c: char, rest: string, st: Scanner)
    requires Ready(st) && InAlphabet(c)
    ensures Scan([c] + rest, st) == Scan(rest, Feed(st, Sextet(c)))
  {
    assert ([c] + rest)[1..] == rest;
  }

  /** How the bits of three bytes are split over four characters and joined
      again by the decoder. */
  lemma GroupBits(b0: Byte, b1: Byte, b2: Byte)
    ensures (b0 % 4 * 16 + b1 / 16) / 16 == b0 % 4 && (b0 % 4 * 16 + b1 / 16) % 16 == b1 / 16
    ensures b0 / 4 * 4 + b0 % 4 == b0
    ensures (b1 % 16 * 4 + b2 / 64) / 4 == b1 % 16 && (b1 % 16 * 4 + b2 / 64) % 4 == b2 / 64
    ensures b1 / 16 * 16 + b1 % 16 == b1
    ensures b2 / 64 * 64 + b2 % 64 == b2
  {
  }

  /** Feeding the four sextets of one full group from the start of a quantum
      writes out its three bytes and starts the next quantum. */
  lemma FeedGroup(b0: Byte, b1: Byte, b2: Byte, out: seq<Byte>)
    ensures Feed(Feed(Feed(Feed(Start(out), b0 / 4), b0 % 4 * 16 + b1 / 16), b1 % 16 * 4 + b2 / 64), b2 % 64)
            == Start(out + [b0, b1, b2])
  {
    GroupBits(b0, b1, b2);
    var st2 := Feed(Feed(Start(out), b0 / 4), b0 % 4 * 16 + b1 / 16);
    assert st2 == Scanner(2, b1 / 16, 0, out + [b0]);
    var st3 := Feed(st2, b1 % 16 * 4 + b2 / 64);
    assert st3 == Scanner(3, b2 / 64, 0, out + [b0, b1]);
  }

  /** Four data characters read by `Scan` feed their four sextets in order. */
  lemma ScanFour(c0: char, c1: char, c2: char, c3: char, rest: string, st: Scanner)
    requires Ready(st) && InAlphabet(c0) && InAlphabet(c1) && InAlphabet(c2) && InAlphabet(c3)
    ensures Scan([c0, c1, c2, c3] + rest, st)
            == Scan(rest, Feed(Feed(Feed(Feed(st, Sextet(c0)), Sextet(c1)), Sextet(c2)), Sextet(c3)))
  {
    var st1 := Feed(st, Sextet(c0));
    var st2 := Feed(st1, Sextet(c1));
    var st3 := Feed(st2, Sextet(c2));
    assert [c0, c1, c2, c3] + rest == [c0] + ([c1] + ([c2] + ([c3] + rest)));
    ScanData(c0, [c1] + ([c2] + ([c3] + rest)), st);
    ScanData(c1, [c2] + ([c3] + rest), st1);
    ScanData(c2, [c3] + rest, st2);
    ScanData(c3, rest, st3);
  }

  /** Scanning the four characters of one full group from the start of a
      quantum writes out its three bytes and starts the next quantum. */
  lemma ScanGroup(b0: Byte, b1: Byte, b2: Byte, rest: string, out: seq<Byte>)
    ensures Scan(Group(b0, b1, b2) + rest, Start(out)) == Scan(rest, Start(out + [b0, b1, b2]))
  {
    ScanFour(Symbol(b0 / 4), Symbol(b0 % 4 * 16 + b1 / 16),
             Symbol(b1 % 16 * 4 + b2 / 64), Symbol(b2 % 64), rest, Start(out));
    FeedGroup(b0, b1, b2, out);
  }

  /** A final group of two bytes, padded with one `=`, ends the decoding. */
  lemma ScanTwoByteTail(b0: Byte, b1: Byte, rest: string, out: seq<Byte>)
    ensures Scan(PairTail(b0, b1) + rest, Start(out)) == Decoded(out + [b0, b1])
  {
    var c0, c1, c2 := Symbol(b0 / 4), Symbol(b0 % 4 * 16 + b1 / 16), Symbol(b1 % 16 * 4);
    GroupBits(b0, b1, 0);
    var st1 := Feed(Start(out), b0 / 4);
    var st2 := Feed(st1, b0 % 4 * 16 + b1 / 16);
    assert st2 == Scanner(2, b1 / 16, 0, out + [b0]);
    var st3 := Feed(st2, b1 % 16 * 4);
    assert st3.out == out + [b0, b1];
    assert [c0, c1, c2, '='] + rest == [c0] + ([c1] + ([c2] + (['='] + rest)));
    ScanData(c0, [c1] + ([c2] + (['='] + rest)), Start(out));
    ScanData(c1, [c2] + (['='] + rest), st1);
    ScanData(c2, ['='] + rest, st2);
  }

  /** A final group of one byte, padded with `==`, ends the decoding. */
  lemma ScanOneByteTail(b0: Byte, rest: string, out: seq<Byte>)
    ensures Scan(ByteTail(b0) + rest, Start(out)) == Decoded(out + [b0])
  {
    var c0, c1 := Symbol(b0 / 4), Symbol(b0 % 4 * 16);
    GroupBits(b0, 0, 0);
    var st1 := Feed(Start(out), b0 / 4);
    var st2 := Feed(st1, b0 % 4 * 16);
    assert st2.out == out + [b0];
    assert [c0, c1, '=', '='] + rest == [c0] + ([c1] + (['='] + (['='] + rest)));
    ScanData(c0, [c1] + (['='] + (['='] + rest)), Start(out));
    ScanData(c1, ['='] + (['='] + rest), st1);
    assert (['='] + (['='] + rest))[1..] == ['='] + rest;
  }

  /** Scanning encoded bytes from the start of a quantum writes out exactly
      those bytes: a whole number of groups leaves the scanner at the start of
      the next quantum, a padded tail ends the decoding there. */
  lemma {:induction false} ScanEncoded(b: seq<Byte>, rest: string, out: seq<Byte>)
    ensures Scan(Encode(b) + rest, Start(out)) ==
            if |b| % 3 == 0 then Scan(rest, Start(out + b)) else Decoded(out + b)
    decreases |b|
  {
    if |b| == 0 {
      assert Encode(b) + rest == rest;
      assert out + b == out;
    } else if |b| < 3 {
      ScanEncodedTail(b, rest, out);
    } else {
      var out' := out + b[..3];
      assert out' + b[3..] == out + b;
      assert |b| % 3 == |b[3..]| % 3;
      ScanEncodedGroup(b, rest, out);
      ScanEncoded(b[3..], rest, out');
    }
  }

  lemma ScanEncodedTail(b: seq<Byte>, rest: string, out: seq<Byte>)
    requires 1 <= |b| < 3
    ensures Scan(Encode(b) + rest, Start(out)) == Decoded(out + b)
  {
    if |b| == 1 {
      ScanOneByteTail(b[0], rest, out);
      assert [b[0]] == b;
    } else {
      ScanTwoByteTail(b[0], b[1], rest, out);
      assert [b[0], b[1]] == b;
    }
  }

  lemma ScanEncodedGroup(b: seq<Byte>, rest: string, out: seq<Byte>)
    requires 3 <= |b|
    ensures Scan(Encode(b) + rest, Start(out)) == Scan(Encode(b[3..]) + rest, Start(out + b[..3]))
  {
    var g, tail := Group(b[0], b[1], b[2]), Encode(b[3..]);
    assert Encode(b) == g + tail;
    assert Encode(b) + rest == g + (tail + rest);
    ScanGroup(b[0], b[1], b[2], tail + rest, out);
    assert [b[0], b[1], b[2]] == b[..3];
  }

  /** Two ASCII texts joined are ASCII. */
  lemma AsciiConcat(a: string, b: string)
    requires IsAscii(a) && IsAscii(b)
    ensures IsAscii(a + b)
  {
    forall i | 0 <= i < |a + b| ensures (a + b)[i] as int < 128 {
      if i >= |a| { assert (a + b)[i] == b[i - |a|]; }
    }
  }

  /** A corpus line holding the encoding of some bytes, with or without its
      line break, decodes to those bytes. */
  lemma DecodeEncodedLine(b: seq<Byte>, lineBreak: string)
    requires lineBreak == "" || lineBreak == "\n"
    ensures Decode(Encode(b) + lineBreak) == Decoded(b)
  {
    EncodeIsAscii(b);
    AsciiConcat(Encode(b), lineBreak);
    ScanEncoded(b, lineBreak, []);
    assert [] + b == b;
  }

  /** One data character and the line break, read at the start of a
      quantum, leave a lone character in the quantum. */
  lemma ScanLoneCharacter(c: char, out: seq<Byte>)
    requires InAlphabet(c)
    ensures Scan([c, '\n'], Start(out)) == Failed(ExcessCharacter)
  {
    ScanData(c, ['\n'], Start(out));
    var st := Feed(Start(out), Sextet(c));
    assert st.quad == 1;
    assert ['\n'][1..] == [];
  }

  /** A line whose data characters stop one past a whole number of quanta is
      a `binascii.Error`, not a decoded question. */
  lemma ExcessCharacterRejected(b: seq<Byte>, c: char)
    requires |b| % 3 == 0 && InAlphabet(c)
    ensures Decode(Encode(b) + [c, '\n']) == Failed(ExcessCharacter)
  {
    EncodeIsAscii(b);
    AsciiConcat(Encode(b), [c, '\n']);
    ScanEncoded(b, [c, '\n'], []);
    ScanLoneCharacter(c, [] + b);
  }

  lemma ExampleGroups()
    ensures Group(0xE4, 0xBD, 0xA0) == "5L2g"
    ensures Group(0xE5, 0xA5, 0xBD) == "5aW9"
    ensures Group(0xEF, 0xBC, 0x9F) == "77yf"
  {
    assert Group(0xE4, 0xBD, 0xA0) == [Symbol(57), Symbol(11), Symbol(54), Symbol(32)];
    assert Symbol(57) == '5' && Symbol(11) == 'L' && Symbol(54) == '2' && Symbol(32) == 'g';
    assert Group(0xE5, 0xA5, 0xBD) == [Symbol(57), Symbol(26), Symbol(22), Symbol(61)];
    assert Symbol(26) == 'a' && Symbol(22) == 'W' && Symbol(61) == '9';
    assert Group(0xEF, 0xBC, 0x9F) == [Symbol(59), Symbol(59), Symbol(50), Symbol(31)];
    assert Symbol(59) == '7' && Symbol(50) == 'y' && Symbol(31) == 'f';
  }

  /** The UTF-8 encoding of "你好？" encodes to "5L2g5aW977yf". */
  lemma EncodeExample()
    ensures Encode([0xE4, 0xBD, 0xA0, 0xE5, 0xA5, 0xBD, 0xEF, 0xBC, 0x9F]) == "5L2g5aW977yf"
  {
    var b: seq<Byte> := [0xE4, 0xBD, 0xA0, 0xE5, 0xA5, 0xBD, 0xEF, 0xBC, 0x9F];
    ExampleGroups();
    var b3, b6 := b[3..], b[6..];
    assert b3[3..] == b6 && b6[3..] == [];
    assert Encode(b6) == "77yf";
    assert Encode(b3) == "5aW9" + "77yf";
    assert Encode(b) == "5L2g" + ("5aW9" + "77yf");
  }

  /** The example line "5L2g5aW977yf" decodes to the UTF-8 bytes of "你好？". */
  lemma DecodeExample()
    ensures Decode("5L2g5aW977yf\n") ==
            Decoded([0xE4, 0xBD, 0xA0, 0xE5, 0xA5, 0xBD, 0xEF, 0xBC, 0x9F])
  {
    EncodeExample();
    DecodeEncodedLine([0xE4, 0xBD, 0xA0, 0xE5, 0xA5, 0xBD, 0xEF, 0xBC, 0x9F], "\n");
    assert "5L2g5aW977yf" + "\n" == "5L2g5aW977yf\n";
  }
}
