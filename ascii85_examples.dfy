/** Worked cases of the `ascii85` codec: what the encoder and the decoder
    return on particular inputs, including the shorthands, the error
    cases, and the input that the source's encoder does not round-trip. */
module Ascii85Examples {
  import opened Common
  import opened Arith
  import opened Text
  import opened Radix
  import opened Blocks
  import opened Ascii85
  import opened Ascii85Laws

  /** One group's characters and the block a group holds, digit by digit. */
  lemma GroupValueOf(g: Bytes)
    requires |g| == 5
    ensures GroupValue(g) ==
              (((((g[0] as int - 33) * 85 + (g[1] as int - 33)) * 85 + (g[2] as int - 33)) * 85 +
                (g[3] as int - 33)) * 85 + (g[4] as int - 33))
  {
    LastDigit(g, 85, 33);
    LastDigit(g[..4], 85, 33);
    LastDigit(g[..3], 85, 33);
    LastDigit(g[..2], 85, 33);
    LastDigit(g[..1], 85, 33);
    assert g[..4][..3] == g[..3] && g[..3][..2] == g[..2] && g[..2][..1] == g[..1];
    assert g[..1][..0] == [];
  }

  lemma WordOf(b: Bytes)
    requires |b| == 4
    ensures Word(b) == ((b[0] as int * 256 + b[1] as int) * 256 + b[2] as int) * 256 + b[3] as int
  {
    LastDigit(b, 256, 0);
    LastDigit(b[..3], 256, 0);
    LastDigit(b[..2], 256, 0);
    LastDigit(b[..1], 256, 0);
    assert b[..3][..2] == b[..2] && b[..2][..1] == b[..1];
    assert b[..1][..0] == [];
  }

  /** One step of the value of a numeral. */
  lemma LastDigit(s: Bytes, base: nat, zero: nat)
    requires |s| > 0
    ensures Value(s, base, zero) == Value(s[..|s| - 1], base, zero) * base + (s[|s| - 1] as int - zero)
  {
  }

  lemma EncodeGroupsOne(block: Bytes)
    ensures EncodeGroups([block]) == EncodeGroup(block)
  {
    EncodeGroupsCons([block]);
    assert [block][1..] == [];
    assert EncodeGroups([]) == [];
  }

  lemma ChunksOne<T>(s: seq<T>, n: nat)
    requires |s| == n > 0
    ensures Chunks(s, n) == [s]
  {
    assert s[..n] == s && s[n..] == [];
  }

  /** Encoding a short input: one padded block, less the padding. */
  lemma EncodeShort(x: Bytes)
    requires 1 <= |x| <= 3
    ensures Encoded(x) == (DropLast(EncodeGroup(x + Repeat<Byte>('\0', 4 - |x|)), 4 - |x|), 4)
  {
    ShortPadding(|x|);
    var padded := PaddedInput(x);
    assert padded == x + Repeat<Byte>('\0', 4 - |x|);
    ChunksOne(padded, 4);
    EncodeGroupsOne(padded);
  }

  lemma ShortPadding(n: nat)
    requires 1 <= n <= 3
    ensures Padding(n, 4) == 4 - n
  {
    DivModUnique(n, 4, 0, n);
  }

  /** A zero block is written `z`. */
  lemma ZeroBlock()
    ensures Encoded("\0\0\0\0") == ("z", 4)
  {
    var b: Bytes := "\0\0\0\0";
    assert PaddedInput(b) == b by {
      assert Padding(4, 4) == 0;
      assert Repeat<Byte>('\0', 0) == [];
    }
    ChunksOne(b, 4);
    ZeroWord();
    EncodeGroupsOne(b);
  }

  lemma ZeroWord()
    ensures Word("\0\0\0\0") == 0
  {
    WordOf("\0\0\0\0");
  }

  lemma WordA()
    ensures Word("A\0\0\0") == 1090519040
  {
    WordOf("A\0\0\0");
  }

  lemma GroupCharsA()
    ensures GroupChars(1090519040) == "5l^lb"
  {
    assert Digits(1090519040, 5, 85, 33) == Digits(12829635, 4, 85, 33) + ['b'];
    assert Digits(12829635, 4, 85, 33) == Digits(150936, 3, 85, 33) + ['l'];
    assert Digits(150936, 3, 85, 33) == Digits(1775, 2, 85, 33) + ['^'];
    assert Digits(1775, 2, 85, 33) == Digits(20, 1, 85, 33) + ['l'];
    assert Digits(20, 1, 85, 33) == Digits(0, 0, 85, 33) + ['5'];
  }

  /** `A` pads to the word 0x41000000, whose digits are `5l^lb`; the
      three padding characters are dropped. */
  lemma EncodeA()
    ensures Encoded("A") == ("5l", 4)
  {
    var x: Bytes := "A";
    EncodeShort(x);
    PadA();
    EncodeGroupA();
  }

  lemma PadA()
    ensures |"A"| == 1 && "A" + Repeat<Byte>('\0', 3) == "A\0\0\0"
    ensures DropLast("5l^lb", 3) == "5l"
  {
    var x: Bytes := "A";
    var g: Bytes := "5l^lb";
    assert x + Repeat<Byte>('\0', 3) == "A\0\0\0";
    assert DropLast(g, 3) == "5l";
  }

  lemma EncodeGroupA()
    ensures EncodeGroup("A\0\0\0") == "5l^lb"
  {
    WordA();
    GroupCharsA();
  }

  lemma DecodeGroupsOne(g: Bytes)
    requires 0 <= GroupValue(g) <= MaxWord
    ensures DecodeGroups([g]) == Success(Pack(GroupValue(g)))
  {
    assert [g][1..] == [];
    assert Pack(GroupValue(g)) + [] == Pack(GroupValue(g));
  }

  /** `5l` decodes to `A`: it is what `A` encodes to, and the byte the
      padding completes is not NUL. */
  lemma DecodeA()
    ensures Decoded("5l") == Success(("A", 5))
  {
    var x: Bytes := "A";
    EncodeA();
    assert !ZeroTail(x) by {
      assert x[0] != '\0';
    }
    RoundTrip(x);
  }

  /** `z` is a zero word written out: it is what the zero block encodes
      to. */
  lemma DecodeZ()
    ensures Decoded("z") == Success(("\0\0\0\0", 5))
  {
    var b: Bytes := "\0\0\0\0";
    var z: Bytes := "z";
    assert EncodeGroups([b]) == z by {
      ZeroWord();
      EncodeGroupsOne(b);
    }
    assert Flatten([b]) == b by {
      assert Flatten([b]) == b + Flatten([]);
    }
    DecodeWhole([b]);
  }

  lemma PackSpaces()
    ensures Pack(538976288) == "    "
  {
    assert Digits(538976288, 4, 256, 0) == Digits(2105376, 3, 256, 0) + [' '];
    assert Digits(2105376, 3, 256, 0) == Digits(8224, 2, 256, 0) + [' '];
    assert Digits(8224, 2, 256, 0) == Digits(32, 1, 256, 0) + [' '];
    assert Digits(32, 1, 256, 0) == Digits(0, 0, 256, 0) + [' '];
  }

  lemma SpacesGroup()
    ensures GroupValue("+<VdL") == 538976288
  {
    GroupValueOf("+<VdL");
  }

  /** `y` passes both checks and expands to `+<VdL`, all digits. */
  lemma ExpandY()
    ensures Aligned("y", 'y') && Aligned("y", 'z')
    ensures KeepAlphabet(Expand("y")) == "+<VdL"
  {
    var s: Bytes := "y";
    var g: Bytes := "+<VdL";
    assert Aligned(s, 'y') by {
      SplitSnoc<Byte>([], 'y');
      assert [] + s == s;
    }
    SplitAbsent<Byte>(s, 'z');
    assert Expand(s) == g by {
      ReplaceCharAbsent<Byte>(s, 'z', "!!!!!");
    }
    SpacesKept();
  }

  lemma SpacesKept()
    ensures KeepAlphabet("+<VdL") == "+<VdL"
  {
    var g: Bytes := "+<VdL";
    assert KeepAlphabet(g) == g;
  }

  /** `y` is four spaces, the word 0x20202020. */
  lemma DecodeY()
    ensures Decoded("y") == Success(("    ", 5))
  {
    var g: Bytes := "+<VdL";
    ExpandY();
    assert Padding(5, 5) == 0;
    assert g + Repeat<Byte>('u', 0) == g;
    ChunksOne(g, 5);
    SpacesGroup();
    PackSpaces();
    DecodeGroupsOne(g);
    DecodedFrom("y", g, 0, [g], "    ");
    assert DropLast<Byte>("    ", 0) == "    ";
  }

  /** Text made only of digits, a whole number of groups, passes both
      checks and is kept as it is, with no padding. */
  lemma DigitsClean(s: Bytes)
    requires IsDigits(s, 85, 33) && |s| % 5 == 0
    ensures Aligned(s, 'y') && Aligned(s, 'z')
    ensures KeepAlphabet(Expand(s)) == s
    ensures Padding(|s|, 5) == 0 && Prepared(s) == s
  {
    DigitsInAlphabet(s);
    SplitAbsent<Byte>(s, 'z');
    ReplaceCharAbsent<Byte>(s, 'z', "!!!!!");
    Clean(s, s);
    NoPadding(s, |s| / 5);
  }

  /** Such text is decoded group by group and nothing is dropped. */
  lemma DecodedDigits(s: Bytes, out: Bytes)
    requires IsDigits(s, 85, 33) && |s| % 5 == 0
    ensures DecodeGroups(Chunks(s, 5)) == Success(out) ==> Decoded(s) == Success((out, |s|))
    ensures DecodeGroups(Chunks(s, 5)).Failure? ==>
              Decoded(s) == Failure(DecodeGroups(Chunks(s, 5)).error)
  {
    DigitsClean(s);
  }

  lemma TopGroup()
    ensures GroupValue("uuuuu") == 4437053124
  {
    var g: Bytes := "uuuuu";
    assert g == Repeat<Byte>('u', 5);
    ValueOfTopDigits(5);
    PowConstants();
  }

  /** `uuuuu` is 85 to the fifth less one, more than a 32-bit word. */
  lemma DecodeTooLarge()
    ensures Decoded("uuuuu") == Failure(InvalidBlock("uuuuu"))
  {
    var g: Bytes := "uuuuu";
    DecodedDigits(g, []);
    ChunksOne(g, 5);
    TopGroup();
  }

  /** A `z` inside a group is refused. */
  lemma MisplacedZ()
    ensures Decoded("!z") == Failure(MalformedBlock('z'))
  {
    var s: Bytes := "!z";
    SplitAbsent<Byte>(s, 'y');
    assert !Aligned(s, 'z') by {
      var a: Bytes := "!";
      SplitSnoc<Byte>(a, 'z');
      SplitAbsent<Byte>(a, 'z');
      assert a + ['z'] == s;
      assert Split<Byte>(s, 'z')[0] == a;
    }
  }

  /** So is a `y`, and it is reported first. */
  lemma MisplacedY()
    ensures Decoded("!y") == Failure(MalformedBlock('y'))
  {
    var s: Bytes := "!y";
    assert !Aligned(s, 'y') by {
      var a: Bytes := "!";
      SplitSnoc<Byte>(a, 'y');
      SplitAbsent<Byte>(a, 'y');
      assert a + ['y'] == s;
      assert Split<Byte>(s, 'y')[0] == a;
    }
  }

  /** Characters outside `!`..`u` are dropped silently, so long as there
      is no shorthand among them. */
  lemma {:induction false} DropsForeign(s: Bytes)
    requires 'y' !in s && 'z' !in s
    ensures Decoded(s) == Decoded(KeepAlphabet(s))
  {
    var k := KeepAlphabet(s);
    assert 'y' !in k && 'z' !in k by {
      forall i | 0 <= i < |k| ensures k[i] != 'y' && k[i] != 'z' {
        assert InAlphabet(k[i]);
      }
    }
    SplitAbsent<Byte>(s, 'y');
    SplitAbsent<Byte>(s, 'z');
    SplitAbsent<Byte>(k, 'y');
    SplitAbsent<Byte>(k, 'z');
    ReplaceCharAbsent<Byte>(s, 'z', "!!!!!");
    ReplaceCharAbsent<Byte>(s, 'y', "+<VdL");
    ReplaceCharAbsent<Byte>(k, 'z', "!!!!!");
    ReplaceCharAbsent<Byte>(k, 'y', "+<VdL");
    assert KeepAlphabet(k) == k;
  }

  /** Five `!` are the zero word. */
  lemma ZeroGroup()
    ensures Decoded("!!!!!") == Success(("\0\0\0\0", 5))
  {
    var g: Bytes := "!!!!!";
    var b: Bytes := "\0\0\0\0";
    ZeroChars();
    ZeroWord();
    BlockRoundTrip(b);
    assert IsDigits(g, 85, 33);
    ChunksOne(g, 5);
    DecodeGroupsOne(g);
    DecodedDigits(g, b);
  }

  /** The filter removes a line break between digits. */
  lemma KeepAroundNewline()
    ensures KeepAlphabet("!!\n!!!") == "!!!!!"
  {
    var a: Bytes, nl: Bytes, b: Bytes := "!!", "\n", "!!!";
    assert "!!\n!!!" == a + nl + b;
    KeepAlphabetConcat(a + nl, b);
    KeepAlphabetConcat(a, nl);
    KeepAlphabetOne('\n');
    assert KeepAlphabet(a) == a && KeepAlphabet(b) == b;
    assert a + [] + b == "!!!!!";
  }

  /** A line break inside a group is dropped, and the digits on either
      side of it are kept in order. */
  lemma DropsNewline()
    ensures Decoded("!!\n!!!") == Success(("\0\0\0\0", 5))
  {
    var s: Bytes := "!!\n!!!";
    assert 'y' !in s && 'z' !in s by {
      assert forall i | 0 <= i < |s| :: s[i] == '!' || s[i] == '\n';
    }
    DropsForeign(s);
    KeepAroundNewline();
    ZeroGroup();
  }

  /** One NUL pads to a zero block. */
  lemma PadNul()
    ensures Padding(1, 4) == 3
    ensures PaddedInput("\0") == "\0\0\0\0"
    ensures Chunks(PaddedInput("\0"), 4) == ["\0\0\0\0"]
    ensures Word("\0\0\0\0") == 0
  {
    var padded: Bytes := "\0\0\0\0";
    assert Padding(1, 4) == 3;
    assert PaddedInput("\0") == padded;
    ChunksOne(padded, 4);
    WordOf(padded);
  }

  /** The source's encoder loses a NUL tail: one NUL pads to a zero block,
      written `z`, and dropping three padding characters leaves nothing,
      which decodes to nothing. */
  lemma ZeroTailLost()
    ensures ZeroTail("\0")
    ensures Encoded("\0") == ([], 4)
    ensures Decoded([]) == Success(([], 0))
  {
    PadNul();
    EncodeGroupsOne("\0\0\0\0");
    assert Decoded([]) == Success(([], 0)) by {
      SplitAbsent<Byte>([], 'y');
      SplitAbsent<Byte>([], 'z');
      assert KeepAlphabet(Expand([])) == [];
      assert Padding(0, 5) == 0;
      assert Repeat<Byte>('u', 0) == [];
      assert Chunks<Byte>([], 5) == [];
    }
  }

  /** The corrected encoder writes the NUL as the digits `!!`, which
      decode back to it. */
  lemma ZeroTailKept()
    ensures EncodedCorrected("\0") == ("!!", 4)
    ensures Decoded("!!") == Success(("\0", 5))
  {
    var x: Bytes := "\0";
    PadNul();
    ZeroChars();
    var blocks := Chunks(PaddedInput(x), 4);
    assert blocks[..|blocks| - 1] == [];
    assert EncodeGroups([]) == [];
    var g: Bytes := "!!!!!";
    assert g[..2] == "!!";
    var e := EncodedCorrected(x);
    assert e.1 == 4;
    assert e.0 == EncodeGroups(blocks[..|blocks| - 1]) + GroupChars(Word(blocks[|blocks| - 1]))[..5 - Padding(|x|, 4)];
    assert e.0 == "!!";
    RoundTripCorrected(x);
  }
}
