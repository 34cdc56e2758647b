/** The `bin` codec: every byte becomes eight '0'/'1' characters, most
    significant bit first, and back. */
module Binary {
  import opened Common
  import opened Text
  import opened Blocks
  import opened Radix
  import opened Arith

  /** The characters `0` and `1` only. */
  predicate IsBinary(s: Bytes)
  {
    IsDigits(s, 2, 48)
  }

  /** `int(s, 2)` on a string of binary digits. */
  function Base2(s: Bytes): int
  {
    Value(s, 2, 48)
  }

  /** The eight characters one byte becomes: the format `'{0:0>8b}'`. */
  function Octet(c: Byte): Bytes
  {
    Digits(c as int, 8, 2, 48)
  }

  function Octets(input: Bytes): seq<Bytes>
  {
    seq(|input|, i requires 0 <= i < |input| => Octet(input[i]))
  }

  /** The output of `bin_encode`. */
  function Encoded(input: Bytes): (r: Bytes)
    ensures |r| == 8 * |input| && IsBinary(r)
    ensures Chunks(r, 8) == Octets(input)
  {
    var os := Octets(input);
    forall i | 0 <= i < |os| ensures |os[i]| == 8 && IsBinary(os[i]) {
      OctetInverse(input[i]);
    }
    ChunksOfFlatten(os, 8);
    FlattenBinary(os);
    Flatten(os)
  }

  /** `bin_encode`: append the eight digits of each byte to the output. */
  method Encode(input: Bytes) returns (output: Bytes, consumed: nat)
    ensures output == Encoded(input)
    ensures consumed == |input|
  {
    output := [];
    for i := 0 to |input|
      invariant output == Encoded(input[..i])
    {
      EncodedAppend(input[..i], input[i]);
      assert input[..i + 1] == input[..i] + [input[i]];
      var l := Octet(input[i]);
      output := output + l;
    }
    assert input[..|input|] == input;
    consumed := |input|;
  }

  lemma EncodedAppend(s: Bytes, c: Byte)
    ensures Encoded(s + [c]) == Encoded(s) + Octet(c)
  {
    assert Octets(s + [c]) == Octets(s) + [Octet(c)];
    FlattenAppend(Octets(s), Octet(c));
  }

  /** `chr(int(group, 2))` for one eight-character group. */
  function ParseOctet(group: Bytes): (r: Result<Byte>)
    requires |group| == 8
    ensures r.Success? <==> IsBinary(group)
    ensures r.Success? ==> Octet(r.value) == group
    ensures r.Failure? ==> r.error == NotBinary(group)
  {
    if IsBinary(group) then
      ValueBound(group, 2, 48);
      DigitsOfValue(group, 2, 48);
      assert Pow(2, 8) == 256 by { PowOfTwo(); }
      Success(Base2(group) as char)
    else Failure(NotBinary(group))
  }

  function ParseOctets(groups: seq<Bytes>): Result<Bytes>
    requires forall i | 0 <= i < |groups| :: |groups[i]| == 8
  {
    if groups == [] then Success([])
    else match ParseOctet(groups[0])
      case Failure(e) => Failure(e)
      case Success(c) =>
        match ParseOctets(groups[1..])
        case Failure(e) => Failure(e)
        case Success(rest) => Success([c] + rest)
  }

  /** `bin_decode`: the length must be a multiple of 8; each group of eight
      digits is parsed in base 2 and becomes one byte. */
  function Decode(input: Bytes): (r: Result<(Bytes, nat)>)
    ensures |input| % 8 != 0 ==> r == Failure(BitCountMismatch(|input|))
    ensures r.Success? <==> |input| % 8 == 0 && IsBinary(input)
    ensures r.Success? ==> |r.value.0| * 8 == |input| && r.value.1 == |input|
    ensures r.Success? ==> Encoded(r.value.0) == input
    ensures |input| % 8 == 0 && r.Failure? ==>
              exists i | 0 <= i < |Chunks(input, 8)| ::
                !IsBinary(Chunks(input, 8)[i]) && r.error == NotBinary(Chunks(input, 8)[i])
  {
    if |input| % 8 != 0 then Failure(BitCountMismatch(|input|))
    else
      ChunksProperties(input, 8);
      ParseOctetsCorrect(Chunks(input, 8));
      ParseOctetsFailure(Chunks(input, 8));
      match ParseOctets(Chunks(input, 8))
      case Failure(e) => Failure(e)
      case Success(out) => Success((out, |input|))
  }

  // ---------------------------------------------------------------------
  // Lemmas

  /** Each byte's eight digits are binary and read back as the byte. */
  lemma OctetInverse(c: Byte)
    ensures |Octet(c)| == 8 && IsBinary(Octet(c))
    ensures Base2(Octet(c)) == c as int
  {
    var v: nat := c as int;
    ValueOfDigits(v, 8, 2, 48);
    PowOfTwo();
    DivModUnique(v, 256, 0, v);
  }

  lemma PowOfTwo()
    ensures Pow(2, 8) == 256
  {
    assert Pow(2, 1) == 2 && Pow(2, 2) == 4 && Pow(2, 3) == 8 && Pow(2, 4) == 16;
    assert Pow(2, 5) == 32 && Pow(2, 6) == 64 && Pow(2, 7) == 128;
  }

  lemma {:induction false} ParseOctetsCorrect(groups: seq<Bytes>)
    requires forall i | 0 <= i < |groups| :: |groups[i]| == 8
    ensures ParseOctets(groups).Success? <==> IsBinary(Flatten(groups))
    ensures ParseOctets(groups).Success? ==>
              |ParseOctets(groups).value| == |groups| &&
              Encoded(ParseOctets(groups).value) == Flatten(groups)
  {
    if groups != [] {
      ParseOctetsCorrect(groups[1..]);
      var f := Flatten(groups);
      assert f == groups[0] + Flatten(groups[1..]);
      assert IsBinary(f) <==> IsBinary(groups[0]) && IsBinary(Flatten(groups[1..])) by {
        if IsBinary(groups[0]) && IsBinary(Flatten(groups[1..])) {
          forall i | 0 <= i < |f| ensures 48 <= f[i] as int < 50 {
            if i >= 8 { assert f[i] == Flatten(groups[1..])[i - 8]; }
          }
        }
        if IsBinary(f) {
          forall i | 0 <= i < |Flatten(groups[1..])|
            ensures 48 <= Flatten(groups[1..])[i] as int < 50
          {
            assert f[i + 8] == Flatten(groups[1..])[i];
          }
          forall i | 0 <= i < 8 ensures 48 <= groups[0][i] as int < 50 {
            assert f[i] == groups[0][i];
          }
        }
      }
      if ParseOctets(groups).Success? {
        var c := ParseOctet(groups[0]).value;
        var rest := ParseOctets(groups[1..]).value;
        assert ParseOctets(groups).value == [c] + rest;
        assert Octets([c] + rest) == [Octet(c)] + Octets(rest);
      }
    }
  }

  /** A failed parse names the first group that is not eight binary digits. */
  lemma {:induction false} ParseOctetsFailure(groups: seq<Bytes>)
    requires forall i | 0 <= i < |groups| :: |groups[i]| == 8
    ensures ParseOctets(groups).Failure? ==>
              exists i | 0 <= i < |groups| ::
                !IsBinary(groups[i]) && ParseOctets(groups).error == NotBinary(groups[i])
  {
    if groups != [] && ParseOctets(groups).Failure? && ParseOctet(groups[0]).Success? {
      ParseOctetsFailure(groups[1..]);
      var k :| 0 <= k < |groups[1..]| && !IsBinary(groups[1..][k]) &&
               ParseOctets(groups[1..]).error == NotBinary(groups[1..][k]);
      assert groups[k + 1] == groups[1..][k];
    }
  }

  /** Encoding has eight characters per byte, all binary digits, and the
      i-th group of eight is the i-th byte written in base 2. */
  lemma {:induction false} EncodedShape(x: Bytes)
    ensures |Encoded(x)| == 8 * |x|
    ensures IsBinary(Encoded(x))
    ensures |Encoded(x)| % 8 == 0
    ensures |Chunks(Encoded(x), 8)| == |x|
    ensures forall i | 0 <= i < |x| :: Base2(Chunks(Encoded(x), 8)[i]) == x[i] as int
  {
    forall i | 0 <= i < |x| ensures |Octets(x)[i]| == 8 {
      OctetInverse(x[i]);
    }
    ChunksOfFlatten(Octets(x), 8);
    forall i | 0 <= i < |x| ensures Base2(Chunks(Encoded(x), 8)[i]) == x[i] as int {
      OctetInverse(x[i]);
    }
    assert IsBinary(Encoded(x)) by {
      forall i | 0 <= i < |x| ensures IsBinary(Octets(x)[i]) {
        OctetInverse(x[i]);
      }
      FlattenBinary(Octets(x));
    }
  }

  lemma {:induction false} FlattenBinary(parts: seq<Bytes>)
    requires forall i | 0 <= i < |parts| :: IsBinary(parts[i])
    ensures IsBinary(Flatten(parts))
  {
    if parts != [] {
      FlattenBinary(parts[1..]);
      var f := Flatten(parts);
      assert f == parts[0] + Flatten(parts[1..]);
      forall i | 0 <= i < |f| ensures 48 <= f[i] as int < 50 {
        if i >= |parts[0]| { assert f[i] == Flatten(parts[1..])[i - |parts[0]|]; }
      }
    }
  }

  /** `bin_decode(bin_encode(x)) == x` for every byte string. */
  lemma RoundTrip(x: Bytes)
    ensures Decode(Encoded(x)) == Success((x, 8 * |x|))
  {
    EncodedShape(x);
    var r := Decode(Encoded(x));
    assert r.Success?;
    EncodedInjective(r.value.0, x);
  }

  lemma {:induction false} EncodedInjective(a: Bytes, b: Bytes)
    requires Encoded(a) == Encoded(b)
    ensures a == b
  {
    EncodedShape(a);
    EncodedShape(b);
    assert |a| == |b|;
    forall i | 0 <= i < |a| ensures a[i] == b[i] {
      assert Base2(Chunks(Encoded(a), 8)[i]) == a[i] as int;
    }
  }

  /** The examples: "A" is "01000001", and seven digits are rejected. */
  lemma Examples()
    ensures Encoded("A") == "01000001"
    ensures Decode("01000001") == Success(("A", 8))
    ensures Decode("0100000") == Failure(BitCountMismatch(7))
    ensures Decode("0100000x") == Failure(NotBinary("0100000x"))
  {
    assert Digits(0, 1, 2, 48) == "0";
    assert Digits(1, 2, 2, 48) == "01";
    assert Digits(2, 3, 2, 48) == "010";
    assert Digits(4, 4, 2, 48) == "0100";
    assert Digits(8, 5, 2, 48) == "01000";
    assert Digits(16, 6, 2, 48) == "010000";
    assert Digits(32, 7, 2, 48) == "0100000";
    assert Octet('A') == "01000001";
    assert Octets("A") == ["01000001"];
    assert Flatten(["01000001"]) == "01000001" + Flatten([]);
    RoundTrip("A");
    var bad: Bytes := "0100000x";
    assert bad[..8] == bad && bad[8..] == [];
    assert Chunks(bad, 8) == [bad];
    assert !IsBinary(bad) by {
      assert bad[7] == 'x';
    }
  }
}
